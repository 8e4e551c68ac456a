/**
 Python's `str.find` and the step-1 slices `s[start:]` and `s[:stop]`,
 on Dafny strings. `find` answers -1 when the needle is absent, and a
 negative slice bound counts from the end, so `s[-1:]` keeps the last
 character and `s[:-1]` drops it.
 */
module PyStr {

  /** `sub` occurs in `s` at index `i`. */
  predicate OccursAt(s: string, sub: string, i: int)
  {
    0 <= i && i + |sub| <= |s| && s[i..i + |sub|] == sub
  }

  /** `sub` occurs somewhere in `s`. */
  predicate Contains(s: string, sub: string)
  {
    exists i :: 0 <= i <= |s| && OccursAt(s, sub, i)
  }

  /** The search behind `find`, started at index `i`. */
  function FindFrom(s: string, sub: string, i: nat): (r: int)
    requires i <= |s|
    ensures r == -1 || (i <= r && OccursAt(s, sub, r))
    ensures forall j :: i <= j && (r == -1 || j < r) ==> !OccursAt(s, sub, j)
    decreases |s| - i
  {
    if i + |sub| > |s| then -1
    else if s[i..i + |sub|] == sub then i
    else FindFrom(s, sub, i + 1)
  }

  /** `s.find(sub)`: the first index at which `sub` occurs, or -1. */
  function Find(s: string, sub: string): (r: int)
    ensures r == -1 <==> !Contains(s, sub)
    ensures r != -1 ==> OccursAt(s, sub, r) && forall j :: 0 <= j < r ==> !OccursAt(s, sub, j)
  {
    FindFrom(s, sub, 0)
  }

  /** How a slice bound `k` is normalised against a length `n`
      (negative bounds count from the end; out-of-range bounds are clipped). */
  function SliceIndex(k: int, n: nat): (r: nat)
    ensures r <= n
    ensures 0 <= k <= n ==> r == k
    ensures -(n as int) <= k < 0 ==> r as int == n as int + k
    ensures k > n ==> r == n
    ensures k < -(n as int) ==> r == 0
  {
    if k < 0 then (if k + n < 0 then 0 else k + n)
    else if k > n then n
    else k
  }

  /** `s[start:]` */
  function SliceFrom(s: string, start: int): (r: string)
    ensures |r| <= |s| && r == s[|s| - |r|..]
    ensures 0 <= start <= |s| ==> r == s[start..]
    ensures start == -1 ==> r == if s == [] then [] else [s[|s| - 1]]
  {
    s[SliceIndex(start, |s|)..]
  }

  /** `s[:stop]` */
  function SliceTo(s: string, stop: int): (r: string)
    ensures r <= s
    ensures 0 <= stop <= |s| ==> r == s[..stop]
    ensures stop == -1 ==> r == if s == [] then [] else s[..|s| - 1]
  {
    s[..SliceIndex(stop, |s|)]
  }
}
