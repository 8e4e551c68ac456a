/**
 The scan `re.findall` performs for the answer pattern, written as a loop
 over indices: try the pattern at index `i`; on a match record the model
 name and resume after the closing `)`, otherwise move on by one
 character. Proved equal to the recursive specification in `Parser`.
 */
module Scanner {
  import opened Parser

  /** `j` is where a greedy run of `[^c]*` starting at `from` stops:
      at the first `c`, or at the end of `s`. */
  predicate RunEnds(s: string, c: char, from: nat, j: nat)
  {
    from <= j <= |s| && c !in s[from..j] && (j < |s| ==> s[j] == c)
  }

  /** The first index at or after `from` holding `c`, or `|s|`. */
  method SkipUntil(s: string, c: char, from: nat) returns (j: nat)
    requires from <= |s|
    ensures RunEnds(s, c, from, j)
  {
    j := from;
    while j < |s| && s[j] != c
      invariant from <= j <= |s|
      invariant c !in s[from..j]
    {
      j := j + 1;
    }
  }

  /** `u` does not start with `[type:`. */
  lemma NoTypeOpen(u: string)
    requires !(|TypeOpen| <= |u| && u[..|TypeOpen|] == TypeOpen)
    ensures MatchPrefix(u) == None
  {
  }

  /** `u` starts with `[type:`, but the task is empty or is not followed by `]:(model:`. */
  lemma NoModelOpen(u: string, t1: nat)
    requires |TypeOpen| <= |u| && u[..|TypeOpen|] == TypeOpen
    requires RunEnds(u, ']', |TypeOpen|, t1)
    requires !(t1 > |TypeOpen| && t1 + |ModelOpen| <= |u| && u[t1..t1 + |ModelOpen|] == ModelOpen)
    ensures MatchPrefix(u) == None
  {
    TakeUntilUnique(u[|TypeOpen|..], ']', u[|TypeOpen|..t1]);
    assert u[|TypeOpen| + (t1 - |TypeOpen|)..] == u[t1..];
    if t1 + |ModelOpen| <= |u| {
      assert u[t1..][..|ModelOpen|] == u[t1..t1 + |ModelOpen|];
    }
  }

  /** Both openings are there; the pattern matches exactly when the model is
      non-empty and a `)` closes it. */
  lemma ModelRun(u: string, t1: nat, m1: nat)
    requires |TypeOpen| <= |u| && u[..|TypeOpen|] == TypeOpen
    requires RunEnds(u, ']', |TypeOpen|, t1)
    requires t1 > |TypeOpen| && t1 + |ModelOpen| <= |u| && u[t1..t1 + |ModelOpen|] == ModelOpen
    requires RunEnds(u, ')', t1 + |ModelOpen|, m1)
    ensures MatchPrefix(u) ==
      if m1 > t1 + |ModelOpen| && m1 < |u|
      then Some(Marker(u[|TypeOpen|..t1], u[t1 + |ModelOpen|..m1]))
      else None
    ensures MatchPrefix(u).Some? ==> |Render(MatchPrefix(u).value)| == m1 + 1
  {
    TakeUntilUnique(u[|TypeOpen|..], ']', u[|TypeOpen|..t1]);
    var rest := u[t1..];
    assert u[|TypeOpen| + (t1 - |TypeOpen|)..] == rest;
    assert rest[..|ModelOpen|] == u[t1..t1 + |ModelOpen|];
    assert rest[|ModelOpen|..] == u[t1 + |ModelOpen|..];
    TakeUntilUnique(rest[|ModelOpen|..], ')', u[t1 + |ModelOpen|..m1]);
    assert rest[|ModelOpen| + (m1 - t1 - |ModelOpen|)..] == u[m1..];
  }

  /** The pattern tried at index `i`; `next` is where the scan goes on. */
  method MatchAt(s: string, i: nat) returns (r: Option<Marker>, next: nat)
    requires i < |s|
    ensures r == MatchPrefix(s[i..])
    ensures next == if r.Some? then i + |Render(r.value)| else i + 1
  {
    var u := s[i..];
    r, next := None, i + 1;
    if |TypeOpen| <= |u| && u[..|TypeOpen|] == TypeOpen {
      var t1 := SkipUntil(u, ']', |TypeOpen|);
      if t1 > |TypeOpen| && t1 + |ModelOpen| <= |u| && u[t1..t1 + |ModelOpen|] == ModelOpen {
        var m1 := SkipUntil(u, ')', t1 + |ModelOpen|);
        ModelRun(u, t1, m1);
        if m1 > t1 + |ModelOpen| && m1 < |u| {
          r := Some(Marker(u[|TypeOpen|..t1], u[t1 + |ModelOpen|..m1]));
          next := i + m1 + 1;
        }
      } else {
        NoModelOpen(u, t1);
      }
    } else {
      NoTypeOpen(u);
    }
  }

  /** `re.findall(pattern, answer)`, returning the captured names. */
  method FindAll(s: string) returns (models: seq<string>)
    ensures models == ExtractModels(s)
  {
    models := [];
    var i := 0;
    while i < |s|
      invariant 0 <= i <= |s|
      invariant models + ExtractModels(s[i..]) == ExtractModels(s)
      decreases |s| - i
    {
      var r, next := MatchAt(s, i);
      if r.Some? {
        ExtractAfterMatch(s[i..], r.value);
        assert s[i..][|Render(r.value)|..] == s[next..];
        ConcatAssoc(models, [r.value.model], ExtractModels(s[next..]));
        models := models + [r.value.model];
      } else {
        ExtractAfterMiss(s[i..]);
        assert s[i..][1..] == s[next..];
      }
      i := next;
    }
    assert s[i..] == [];
    assert models + [] == models;
  }
}
