/** What copying a test plan does to the destination sheet, stated row by row
    as a function of the two sheets, and the properties of that result. */
module TestPlan {
  import opened Sheets
  import opened Strings

  /** First data row: rows 1..16 are the header region. */
  const FirstDataRow: nat := 17
  /** Column holding the test case ID, the key rows are matched by. */
  const KeyColumn: nat := 1
  /** The payload span: columns 11..17. */
  const PayloadFirst: nat := 11
  const PayloadWidth: nat := 7
  /** Header label repeated inside the data region. */
  const HeaderLabel: string := "Test Case ID"
  /** Marker of test suite rows, which are never overwritten. */
  const SuiteMarker: string := ".TS."

  predicate InPayload(col: int)
  {
    PayloadFirst <= col < PayloadFirst + PayloadWidth
  }

  /** The key of sheet row `row`. */
  function Key(g: Grid, row: nat): Cell
    requires WellFormed(g) && 1 <= row <= |g|
  {
    At(g, row, KeyColumn)
  }

  /** A destination row takes part in the copy when its key is present, is
      not the header label and does not contain the suite marker. */
  function Eligible(key: Cell): (b: bool)
    ensures b <==> key.Some? && key.value != HeaderLabel && !Contains(key.value, SuiteMarker)
  {
    key != None && key != Some(HeaderLabel) && Find(key.value, SuiteMarker) == -1
  }

  /** `p` is the lowest data row of `src` whose key is `key`. */
  predicate IsFirstMatch(src: Grid, key: string, p: nat)
    requires WellFormed(src)
  {
    && FirstDataRow <= p <= |src|
    && Key(src, p) == Some(key)
    && forall q :: FirstDataRow <= q < p ==> Key(src, q) != Some(key)
  }

  /** No data row of `src` has key `key`. */
  predicate NoMatch(src: Grid, key: string)
    requires WellFormed(src)
  {
    forall p :: FirstDataRow <= p <= |src| ==> Key(src, p) != Some(key)
  }

  /** The scan of source rows `pos`, `pos + 1`, ..., `|src|` for `key`,
      stopping at the first row that has it. */
  function ScanFrom(src: Grid, key: string, pos: nat): (r: Option<nat>)
    requires WellFormed(src) && 1 <= pos
    decreases |src| + 1 - pos
    ensures r.Some? ==> pos <= r.value <= |src| && Key(src, r.value) == Some(key)
    ensures r.Some? ==> forall q :: pos <= q < r.value ==> Key(src, q) != Some(key)
    ensures r.None? ==> forall q :: pos <= q <= |src| ==> Key(src, q) != Some(key)
  {
    if pos > |src| then None
    else if Key(src, pos) == Some(key) then Some(pos)
    else ScanFrom(src, key, pos + 1)
  }

  /** The source row a destination row with key `key` copies from. */
  function FirstMatch(src: Grid, key: string): (r: Option<nat>)
    requires WellFormed(src)
    ensures r.Some? ==> IsFirstMatch(src, key, r.value)
    ensures r.None? ==> NoMatch(src, key)
  {
    ScanFrom(src, key, FirstDataRow)
  }

  /** `dstRow` with its payload span overwritten by that of `srcRow`. */
  function CopyPayload(dstRow: seq<Cell>, srcRow: seq<Cell>): (r: seq<Cell>)
    requires |dstRow| >= Columns && |srcRow| >= Columns
    ensures |r| == |dstRow|
    ensures forall col :: 1 <= col <= |r| ==>
      Get(r, col) == if InPayload(col) then Get(srcRow, col) else Get(dstRow, col)
  {
    dstRow[..PayloadFirst - 1]
      + srcRow[PayloadFirst - 1..PayloadFirst - 1 + PayloadWidth]
      + dstRow[PayloadFirst - 1 + PayloadWidth..]
  }

  /** A data row of the destination after the copy. */
  function RowResult(dstRow: seq<Cell>, src: Grid): (r: seq<Cell>)
    requires |dstRow| >= Columns && WellFormed(src)
    ensures |r| == |dstRow|
    ensures Get(r, KeyColumn) == Get(dstRow, KeyColumn)
  {
    var key := Get(dstRow, KeyColumn);
    if !Eligible(key) then dstRow
    else match FirstMatch(src, key.value)
      case None => dstRow
      case Some(p) => CopyPayload(dstRow, Row(src, p))
  }

  /** The destination sheet after the copy: header rows as they were, data
      rows as RowResult says. */
  function CopyResult(dst: Grid, src: Grid): (r: Grid)
    requires WellFormed(dst) && WellFormed(src)
    ensures |r| == |dst| && WellFormed(r)
    ensures forall i :: 0 <= i < |r| ==> |r[i]| == |dst[i]|
  {
    seq(|dst|, i requires 0 <= i < |dst| =>
      if i + 1 >= FirstDataRow then RowResult(dst[i], src) else dst[i])
  }

  /** The first match is the only row that satisfies IsFirstMatch, and there
      is none exactly when no data row carries the key. */
  lemma FirstMatchExactly(src: Grid, key: string, p: nat)
    requires WellFormed(src)
    ensures FirstMatch(src, key) == Some(p) <==> IsFirstMatch(src, key, p)
    ensures FirstMatch(src, key) == None <==> NoMatch(src, key)
  {
  }

  /** A row whose key is absent, the header label or a suite marker keeps
      every cell. */
  lemma SkippedRowUnchanged(dst: Grid, src: Grid, row: nat)
    requires WellFormed(dst) && WellFormed(src) && 1 <= row <= |dst|
    requires !Eligible(Key(dst, row))
    ensures Row(CopyResult(dst, src), row) == Row(dst, row)
  {
  }

  /** An eligible row whose key occurs in the source takes the payload span
      of the lowest source row with that key; every other cell stays. */
  lemma MatchedRowCopiesFirstMatch(dst: Grid, src: Grid, row: nat, p: nat)
    requires WellFormed(dst) && WellFormed(src)
    requires FirstDataRow <= row <= |dst|
    requires Eligible(Key(dst, row))
    requires IsFirstMatch(src, Key(dst, row).value, p)
    ensures |Row(CopyResult(dst, src), row)| == |Row(dst, row)|
    ensures forall col :: 1 <= col <= |Row(dst, row)| ==>
      At(CopyResult(dst, src), row, col) == if InPayload(col) then At(src, p, col) else At(dst, row, col)
  {
  }

  /** An eligible row whose key occurs in no source data row keeps every
      cell. */
  lemma UnmatchedRowUnchanged(dst: Grid, src: Grid, row: nat)
    requires WellFormed(dst) && WellFormed(src) && 1 <= row <= |dst|
    requires Eligible(Key(dst, row))
    requires NoMatch(src, Key(dst, row).value)
    ensures Row(CopyResult(dst, src), row) == Row(dst, row)
  {
  }

  /** Only payload cells of data rows are ever written: the key column, the
      other columns and the header rows keep their values. */
  lemma OnlyPayloadChanges(dst: Grid, src: Grid, row: nat, col: nat)
    requires WellFormed(dst) && WellFormed(src)
    requires 1 <= row <= |dst| && 1 <= col <= |Row(dst, row)|
    requires row < FirstDataRow || !InPayload(col)
    ensures |Row(CopyResult(dst, src), row)| == |Row(dst, row)|
    ensures At(CopyResult(dst, src), row, col) == At(dst, row, col)
  {
  }

  /** Copying twice is copying once: keys never change, so every row finds
      the same source row again and copies the same values. */
  lemma {:induction false} CopyIdempotent(dst: Grid, src: Grid)
    requires WellFormed(dst) && WellFormed(src)
    ensures CopyResult(CopyResult(dst, src), src) == CopyResult(dst, src)
  {
    var once := CopyResult(dst, src);
    var twice := CopyResult(once, src);
    forall i | 0 <= i < |dst|
      ensures twice[i] == once[i]
    {
      if i + 1 >= FirstDataRow {
        RowResultIdempotent(dst[i], src);
      }
    }
  }

  lemma RowResultIdempotent(dstRow: seq<Cell>, src: Grid)
    requires |dstRow| >= Columns && WellFormed(src)
    ensures RowResult(RowResult(dstRow, src), src) == RowResult(dstRow, src)
  {
  }
}
