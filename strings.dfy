/** Substring search on text, as Python's `str.find` does it. */
module Strings {

  /** `sub` occurs in `s` starting at index `i`. */
  predicate OccursAt(s: string, sub: string, i: nat)
  {
    i + |sub| <= |s| && s[i..i + |sub|] == sub
  }

  /** `sub` occurs somewhere in `s`. */
  ghost predicate Contains(s: string, sub: string)
  {
    exists i: nat :: OccursAt(s, sub, i)
  }

  /** Lowest index at or after `start` where `sub` occurs in `s`, or -1. */
  function FindFrom(s: string, sub: string, start: nat): (r: int)
    decreases |s| - start
    ensures r == -1 || (start <= r && OccursAt(s, sub, r))
    ensures r == -1 ==> forall i: nat :: start <= i ==> !OccursAt(s, sub, i)
    ensures r != -1 ==> forall i: nat :: start <= i < r ==> !OccursAt(s, sub, i)
  {
    if start + |sub| > |s| then -1
    else if s[start..start + |sub|] == sub then start
    else FindFrom(s, sub, start + 1)
  }

  /** `s.find(sub)`: the lowest index where `sub` occurs in `s`, or -1 when
      it does not occur at all. */
  function Find(s: string, sub: string): (r: int)
    ensures r == -1 <==> !Contains(s, sub)
    ensures r != -1 ==> 0 <= r && OccursAt(s, sub, r)
    ensures r != -1 ==> forall i: nat :: i < r ==> !OccursAt(s, sub, i)
  {
    FindFrom(s, sub, 0)
  }
}
