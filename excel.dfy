/** The two implementations of the key-matched copy of a test plan: for every
    eligible data row of the destination sheet, find the first source data row
    with the same test case ID and overwrite the destination's columns 11..17
    with that row's values. Both update the destination sheet in place and
    only read the source sheet. */
module Excel {
  import opened Sheets
  import opened TestPlan

  /** The first solution: cells addressed by (row, column), an inner `while`
      scan that a `notFound` flag ends at the first match. */
  method Solution1(dst: Worksheet, src: Worksheet)
    requires dst.Valid() && src.Valid() && dst != src
    modifies dst
    ensures dst.Valid()
    ensures dst.grid == CopyResult(old(dst.grid), src.grid)
    ensures unchanged(src)
  {
    ghost var start := dst.grid;
    var maxRow := dst.MaxRow();
    var row := FirstDataRow;
    while row <= maxRow
      invariant FirstDataRow <= row && (row <= maxRow + 1 || row == FirstDataRow)
      invariant dst.Valid() && |dst.grid| == maxRow
      invariant forall i :: 0 <= i < maxRow ==>
        dst.grid[i] == if FirstDataRow <= i + 1 < row then RowResult(start[i], src.grid) else start[i]
    {
      var current := dst.Value(row, KeyColumn);
      if Eligible(current) {
        ghost var before := dst.grid;
        ghost var copies := 0;
        var notFound := true;
        var pos := FirstDataRow;
        while notFound && pos <= src.MaxRow()
          invariant FirstDataRow <= pos && (pos <= src.MaxRow() + 1 || pos == FirstDataRow)
          invariant dst.Valid() && |dst.grid| == maxRow
          invariant copies == if notFound then 0 else 1
          invariant notFound ==> dst.grid == before
          invariant notFound ==> forall q :: FirstDataRow <= q < pos ==> Key(src.grid, q) != current
          invariant !notFound ==> FirstDataRow < pos && FirstMatch(src.grid, current.value) == Some(pos - 1)
          invariant !notFound ==>
            dst.grid == before[row - 1 := CopyPayload(before[row - 1], Row(src.grid, pos - 1))]
        {
          if current == src.Value(pos, KeyColumn) {
            for delta := 0 to PayloadWidth
              invariant dst.Valid() && |dst.grid| == maxRow
              invariant forall i :: 0 <= i < maxRow && i != row - 1 ==> dst.grid[i] == before[i]
              invariant |dst.grid[row - 1]| == |before[row - 1]|
              invariant forall c :: 0 <= c < |before[row - 1]| ==>
                Row(dst.grid, row)[c] ==
                  if PayloadFirst - 1 <= c < PayloadFirst - 1 + delta then Row(src.grid, pos)[c]
                  else Row(before, row)[c]
            {
              dst.SetValue(row, PayloadFirst + delta, src.Value(pos, PayloadFirst + delta));
            }
            CopiedSpan(before[row - 1], Row(src.grid, pos), dst.grid[row - 1]);
            FirstMatchExactly(src.grid, current.value, pos);
            copies := copies + 1;
            notFound := false;
          }
          pos := pos + 1;
        }
        assert copies <= 1;
      }
      row := row + 1;
    }
  }

  /** The second solution: rows visited as the tuples of cells of columns
      1..17 that `iter_rows` yields (tuple index `i` is column `i + 1`), and
      an inner `for` over the source rows that `break` ends at the first
      match. */
  method Solution2(dst: Worksheet, src: Worksheet)
    requires dst.Valid() && src.Valid() && dst != src
    modifies dst
    ensures dst.Valid()
    ensures dst.grid == CopyResult(old(dst.grid), src.grid)
    ensures unchanged(src)
  {
    ghost var start := dst.grid;
    var maxRow := dst.MaxRow();
    var row := FirstDataRow;
    while row <= maxRow
      invariant FirstDataRow <= row && (row <= maxRow + 1 || row == FirstDataRow)
      invariant dst.Valid() && |dst.grid| == maxRow
      invariant forall i :: 0 <= i < maxRow ==>
        dst.grid[i] == if FirstDataRow <= i + 1 < row then RowResult(start[i], src.grid) else start[i]
    {
      var testName := dst.IterRow(row)[0];
      if Eligible(testName) {
        ghost var before := dst.grid;
        ghost var copies := 0;
        var pos := FirstDataRow;
        while pos <= src.MaxRow()
          invariant FirstDataRow <= pos && (pos <= src.MaxRow() + 1 || pos == FirstDataRow)
          invariant dst.grid == before && copies == 0
          invariant forall q :: FirstDataRow <= q < pos ==> Key(src.grid, q) != testName
        {
          var entry := src.IterRow(pos);
          if testName == entry[0] {
            for delta := 0 to PayloadWidth
              invariant dst.Valid() && |dst.grid| == maxRow
              invariant forall i :: 0 <= i < maxRow && i != row - 1 ==> dst.grid[i] == before[i]
              invariant |dst.grid[row - 1]| == |before[row - 1]|
              invariant forall c :: 0 <= c < |before[row - 1]| ==>
                Row(dst.grid, row)[c] ==
                  if PayloadFirst - 1 <= c < PayloadFirst - 1 + delta then Row(src.grid, pos)[c]
                  else Row(before, row)[c]
            {
              // row[10 + delta] is column 11 + delta
              dst.SetValue(row, PayloadFirst + delta, entry[PayloadFirst - 1 + delta]);
            }
            CopiedSpan(before[row - 1], Row(src.grid, pos), dst.grid[row - 1]);
            FirstMatchExactly(src.grid, testName.value, pos);
            copies := copies + 1;
            assert dst.grid == before[row - 1 := CopyPayload(before[row - 1], Row(src.grid, pos))];
            break;
          }
          pos := pos + 1;
        }
        assert copies <= 1;
      }
      row := row + 1;
    }
  }

  /** A row whose payload cells hold those of `srcRow` and whose other cells
      hold those of `dstRow` is CopyPayload(dstRow, srcRow). */
  lemma CopiedSpan(dstRow: seq<Cell>, srcRow: seq<Cell>, r: seq<Cell>)
    requires |dstRow| >= Columns && |srcRow| >= Columns && |r| == |dstRow|
    requires forall c :: 0 <= c < |r| ==>
      r[c] == if PayloadFirst - 1 <= c < PayloadFirst - 1 + PayloadWidth then srcRow[c] else dstRow[c]
    ensures r == CopyPayload(dstRow, srcRow)
  {
  }

  /** Both solutions leave the same destination sheet behind, whatever the
      two sheets hold. */
  method SolutionsAgree(a: Worksheet, b: Worksheet, src: Worksheet)
    requires a.Valid() && b.Valid() && src.Valid()
    requires a != b && a != src && b != src
    requires a.grid == b.grid
    modifies a, b
    ensures a.grid == b.grid
  {
    Solution1(a, src);
    Solution2(b, src);
  }

  /** Running the copy again on its own output changes nothing. */
  method SecondRunChangesNothing(dst: Worksheet, src: Worksheet)
    requires dst.Valid() && src.Valid() && dst != src
    modifies dst
    ensures dst.Valid()
    ensures dst.grid == CopyResult(old(dst.grid), src.grid)
  {
    Solution2(dst, src);
    ghost var once := dst.grid;
    Solution2(dst, src);
    CopyIdempotent(old(dst.grid), src.grid);
    assert dst.grid == once;
  }
}
