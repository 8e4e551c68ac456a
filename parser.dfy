/**
 The answer parser: `re.findall` with the pattern
 `\[type:[^\]]+\]:\(model:([^)]+)\)`, returning the captured model names.

 Because the task part may not contain `]` and the model part may not
 contain `)`, a match at a given index is unique: the task runs to the
 first `]`, the model to the first `)`. `findall` tries each index from
 left to right, and after a match resumes just past it.
 */
module Parser {

  datatype Option<T> = None | Some(value: T)

  /** One recommendation `[type:<task>]:(model:<model>)` as the pattern reads it. */
  datatype Marker = Marker(task: string, model: string)

  const TypeOpen: string := "[type:"
  const ModelOpen: string := "]:(model:"

  /** The text of a marker. */
  function Render(mk: Marker): string
  {
    TypeOpen + mk.task + ModelOpen + mk.model + ")"
  }

  /** What the two character classes `[^\]]+` and `[^)]+` admit. */
  predicate WellFormed(mk: Marker)
  {
    mk.task != [] && ']' !in mk.task && mk.model != [] && ')' !in mk.model
  }

  /** The pattern matches `s` at index `i`, with these captures. */
  predicate MarkerAt(s: string, i: int, mk: Marker)
  {
    0 <= i <= |s| && WellFormed(mk) && Render(mk) <= s[i..]
  }

  /** `s` holds no match of the pattern at any index. */
  ghost predicate NoMarker(s: string)
  {
    forall i, mk :: !MarkerAt(s, i, mk)
  }

  /** The longest prefix of `s` without `c`: a greedy run of `[^c]`. */
  function TakeUntil(s: string, c: char): (r: string)
    ensures r <= s && c !in r && (|r| < |s| ==> s[|r|] == c)
  {
    if s == [] || s[0] == c then [] else [s[0]] + TakeUntil(s[1..], c)
  }

  /** The three properties above determine the run. */
  lemma {:induction false} TakeUntilUnique(s: string, c: char, r: string)
    requires r <= s && c !in r && (|r| < |s| ==> s[|r|] == c)
    ensures TakeUntil(s, c) == r
  {
    if r != [] {
      assert s[0] == r[0];
      TakeUntilUnique(s[1..], c, r[1..]);
    }
  }

  /** The pattern tried at the start of `s`. */
  function MatchPrefix(s: string): (r: Option<Marker>)
    ensures r.Some? ==> WellFormed(r.value) && Render(r.value) <= s
  {
    if !(TypeOpen <= s) then None
    else
      var task := TakeUntil(s[|TypeOpen|..], ']');
      var rest := s[|TypeOpen| + |task|..];
      if task == [] || !(ModelOpen <= rest) then None
      else
        var model := TakeUntil(rest[|ModelOpen|..], ')');
        var tail := rest[|ModelOpen| + |model|..];
        if model == [] || tail == [] then None
        else
          assert tail[0] == ')';
          assert s == TypeOpen + task + rest;
          assert rest == ModelOpen + model + tail;
          assert Render(Marker(task, model)) <= s;
          Some(Marker(task, model))
  }

  /** Every match at the start of `s` is the one `MatchPrefix` finds. */
  lemma MatchPrefixComplete(s: string, mk: Marker)
    requires WellFormed(mk) && Render(mk) <= s
    ensures MatchPrefix(s) == Some(mk)
  {
    var n := |TypeOpen|;
    assert s[..n] == TypeOpen;
    var after := s[n..];
    assert mk.task + ModelOpen <= after by {
      assert after[..|mk.task| + |ModelOpen|] == s[n..n + |mk.task| + |ModelOpen|];
    }
    TakeUntilUnique(after, ']', mk.task);
    var rest := s[n + |mk.task|..];
    assert ModelOpen <= rest by {
      assert rest[..|ModelOpen|] == s[n + |mk.task|..n + |mk.task| + |ModelOpen|];
    }
    var inner := rest[|ModelOpen|..];
    assert mk.model + ")" <= inner by {
      assert inner[..|mk.model| + 1] == s[n + |mk.task| + |ModelOpen|..|Render(mk)|];
    }
    TakeUntilUnique(inner, ')', mk.model);
  }

  /** No match starts at index 0 exactly when `MatchPrefix` finds none there. */
  lemma MatchPrefixNone(s: string)
    ensures MatchPrefix(s).None? <==> forall mk :: !MarkerAt(s, 0, mk)
  {
    if MatchPrefix(s).Some? {
      assert MarkerAt(s, 0, MatchPrefix(s).value);
    }
    forall mk | MarkerAt(s, 0, mk) ensures MatchPrefix(s).Some? {
      MatchPrefixComplete(s, mk);
    }
  }

  /** `extract_models_from_answer`: the model names of all matches, found left
      to right without overlap, duplicates kept. */
  function ExtractModels(s: string): (r: seq<string>)
    ensures forall k :: 0 <= k < |r| ==> r[k] != [] && ')' !in r[k]
    decreases |s|
  {
    if s == [] then []
    else match MatchPrefix(s)
      case Some(mk) => [mk.model] + ExtractModels(s[|Render(mk)|..])
      case None => ExtractModels(s[1..])
  }

  /** A well-formed marker at the front contributes its model name, and the scan
      resumes right after it. */
  lemma ExtractMarker(mk: Marker, rest: string)
    requires WellFormed(mk)
    ensures ExtractModels(Render(mk) + rest) == [mk.model] + ExtractModels(rest)
  {
    var s := Render(mk) + rest;
    MatchPrefixComplete(s, mk);
    assert s[|Render(mk)|..] == rest;
  }

  /** A match must start with `[`. */
  lemma NoOpenNoMatch(s: string)
    requires s != [] && s[0] != '['
    ensures MatchPrefix(s) == None
  {
    assert s[0] != TypeOpen[0];
  }

  /** Text without `[` can hold no match and is skipped. */
  lemma {:induction false} ExtractFiller(f: string, rest: string)
    requires '[' !in f
    ensures ExtractModels(f + rest) == ExtractModels(rest)
  {
    if f != [] {
      var s := f + rest;
      assert s[0] == f[0];
      NoOpenNoMatch(s);
      assert s[1..] == f[1..] + rest;
      ExtractFiller(f[1..], rest);
    } else {
      assert f + rest == rest;
    }
  }

  /** A match in `s[1..]` is a match in `s`, one index further on. */
  lemma MarkerInTail(s: string, i: int, mk: Marker)
    requires s != [] && MarkerAt(s[1..], i, mk)
    ensures MarkerAt(s, i + 1, mk)
  {
    assert s[1..][i..] == s[i + 1..];
  }

  /** A text holding no match yields no model names. */
  lemma {:induction false} NoMarkerNoModels(s: string)
    requires NoMarker(s)
    ensures ExtractModels(s) == []
    decreases |s|
  {
    if s != [] {
      MatchPrefixNone(s);
      assert NoMarker(s[1..]) by {
        forall i, mk | MarkerAt(s[1..], i, mk) ensures false {
          MarkerInTail(s, i, mk);
        }
      }
      NoMarkerNoModels(s[1..]);
    }
  }

  /** A text holding a match at any index yields at least one model name. */
  lemma {:induction false} MarkerGivesModel(s: string, i: int, mk: Marker)
    requires MarkerAt(s, i, mk)
    ensures ExtractModels(s) != []
    decreases i
  {
    if MatchPrefix(s).None? {
      if i == 0 {
        MatchPrefixComplete(s, mk);
      } else {
        assert s[1..][i - 1..] == s[i..];
        MarkerGivesModel(s[1..], i - 1, mk);
      }
    }
  }

  /** The parser returns the empty list exactly when the text holds no match. */
  lemma ExtractEmptyIff(s: string)
    ensures ExtractModels(s) == [] <==> NoMarker(s)
  {
    if NoMarker(s) {
      NoMarkerNoModels(s);
    } else {
      var i, mk :| MarkerAt(s, i, mk);
      MarkerGivesModel(s, i, mk);
    }
  }

  /** No match in `a + b` that starts inside `a` runs past the end of `a`. */
  ghost predicate NoStraddle(a: string, b: string)
  {
    forall i, mk :: 0 <= i < |a| && MarkerAt(a + b, i, mk) ==> i + |Render(mk)| <= |a|
  }

  lemma NoStraddleTail(a: string, b: string, n: nat)
    requires NoStraddle(a, b) && n <= |a|
    ensures NoStraddle(a[n..], b)
  {
    assert (a + b)[n..] == a[n..] + b;
    forall i, mk | 0 <= i < |a[n..]| && MarkerAt(a[n..] + b, i, mk)
      ensures i + |Render(mk)| <= |a[n..]|
    {
      assert (a + b)[n + i..] == (a[n..] + b)[i..];
      assert MarkerAt(a + b, n + i, mk);
    }
  }

  /** One step of the scan after a match at the front. */
  lemma ExtractAfterMatch(s: string, mk: Marker)
    requires MatchPrefix(s) == Some(mk)
    ensures ExtractModels(s) == [mk.model] + ExtractModels(s[|Render(mk)|..])
  {
  }

  /** One step of the scan when nothing matches at the front. */
  lemma ExtractAfterMiss(s: string)
    requires s != [] && MatchPrefix(s) == None
    ensures ExtractModels(s) == ExtractModels(s[1..])
  {
  }

  /** A match at the front of `a + b` that does not straddle is a match of `a`. */
  lemma MatchInFront(a: string, b: string, mk: Marker)
    requires a != [] && MatchPrefix(a + b) == Some(mk) && NoStraddle(a, b)
    ensures |Render(mk)| <= |a| && MatchPrefix(a) == Some(mk)
  {
    var s := a + b;
    var n := |Render(mk)|;
    assert MarkerAt(s, 0, mk);
    assert Render(mk) <= a by {
      assert a[..n] == s[..n];
    }
    MatchPrefixComplete(a, mk);
  }

  /** No match at the front of `a + b` means none at the front of `a`. */
  lemma MissInFront(a: string, b: string)
    requires MatchPrefix(a + b) == None
    ensures MatchPrefix(a) == None
  {
    if MatchPrefix(a).Some? {
      var mk := MatchPrefix(a).value;
      assert Render(mk) <= a + b;
      MatchPrefixComplete(a + b, mk);
    }
  }

  /** When no match straddles the split, parsing a concatenation is parsing
      each part: matches are found left to right and never overlap. */
  lemma {:induction false} ExtractAppend(a: string, b: string)
    requires NoStraddle(a, b)
    ensures ExtractModels(a + b) == ExtractModels(a) + ExtractModels(b)
    decreases |a|, 1
  {
    if a == [] {
      assert a + b == b;
    } else if MatchPrefix(a + b).Some? {
      ExtractAppendMatch(a, b, MatchPrefix(a + b).value);
    } else {
      ExtractAppendMiss(a, b);
    }
  }

  lemma ConcatAssoc<T>(x: seq<T>, y: seq<T>, z: seq<T>)
    ensures x + (y + z) == (x + y) + z
  {
  }

  /** `ExtractAppend` when a match starts the text. */
  lemma {:induction false} ExtractAppendMatch(a: string, b: string, mk: Marker)
    requires NoStraddle(a, b) && a != [] && MatchPrefix(a + b) == Some(mk)
    ensures ExtractModels(a + b) == ExtractModels(a) + ExtractModels(b)
    decreases |a|, 0
  {
    var s := a + b;
    var n := |Render(mk)|;
    MatchInFront(a, b, mk);
    assert n > 0;
    assert s[n..] == a[n..] + b;
    NoStraddleTail(a, b, n);
    ExtractAppend(a[n..], b);
    ExtractAfterMatch(s, mk);
    ExtractAfterMatch(a, mk);
    ConcatAssoc([mk.model], ExtractModels(a[n..]), ExtractModels(b));
  }

  /** `ExtractAppend` when no match starts the text. */
  lemma {:induction false} ExtractAppendMiss(a: string, b: string)
    requires NoStraddle(a, b) && a != [] && MatchPrefix(a + b) == None
    ensures ExtractModels(a + b) == ExtractModels(a) + ExtractModels(b)
    decreases |a|, 0
  {
    var s := a + b;
    MissInFront(a, b);
    assert s[1..] == a[1..] + b;
    NoStraddleTail(a, b, 1);
    ExtractAppend(a[1..], b);
    ExtractAfterMiss(s);
    ExtractAfterMiss(a);
  }

  /** The model names of a list of markers, in order. */
  function ModelsOf(ms: seq<Marker>): (r: seq<string>)
    ensures |r| == |ms| && forall k :: 0 <= k < |ms| ==> r[k] == ms[k].model
  {
    if ms == [] then [] else [ms[0].model] + ModelsOf(ms[1..])
  }

  /** Free text `fillers[0]`, then each marker followed by the next filler. */
  function Layout(ms: seq<Marker>, fillers: seq<string>): string
    requires |fillers| == |ms| + 1
  {
    if ms == [] then fillers[0]
    else fillers[0] + Render(ms[0]) + Layout(ms[1..], fillers[1..])
  }

  /** For k well-formed markers laid out among free text without `[`, the parser
      returns exactly their k model names, in order. */
  lemma {:induction false} ExtractLayout(ms: seq<Marker>, fillers: seq<string>)
    requires |fillers| == |ms| + 1
    requires forall k :: 0 <= k < |ms| ==> WellFormed(ms[k])
    requires forall k :: 0 <= k < |fillers| ==> '[' !in fillers[k]
    ensures ExtractModels(Layout(ms, fillers)) == ModelsOf(ms)
  {
    if ms == [] {
      ExtractFiller(fillers[0], []);
      assert fillers[0] + [] == fillers[0];
    } else {
      var tail := Layout(ms[1..], fillers[1..]);
      assert fillers[0] + Render(ms[0]) + tail == fillers[0] + (Render(ms[0]) + tail);
      ExtractFiller(fillers[0], Render(ms[0]) + tail);
      assert WellFormed(ms[0]);
      ExtractMarker(ms[0], tail);
      ExtractLayout(ms[1..], fillers[1..]);
    }
  }

  /** Two recommendations in the `[type:xxx]:(model:xxx)` format, as text. */
  lemma DocMarkersText()
    ensures Render(Marker("denoise", "scunet")) == "[type:denoise]:(model:scunet)"
    ensures Render(Marker("derain", "idt")) == "[type:derain]:(model:idt)"
  {
  }

  /** A two-recommendation answer, assembled from its two markers. */
  lemma DocExampleText()
    ensures Render(Marker("denoise", "scunet")) + " and " + Render(Marker("derain", "idt"))
         == "[type:denoise]:(model:scunet) and [type:derain]:(model:idt)"
  {
    DocMarkersText();
  }

  /** Parsing the two markers with ` and ` between them. */
  lemma DocExampleParsed()
    ensures ExtractModels(Render(Marker("denoise", "scunet")) + " and " + Render(Marker("derain", "idt")))
         == ["scunet", "idt"]
  {
    var first, second := Marker("denoise", "scunet"), Marker("derain", "idt");
    assert Render(first) + " and " + Render(second) == Render(first) + (" and " + Render(second));
    ExtractMarker(first, " and " + Render(second));
    ExtractFiller(" and ", Render(second));
    assert Render(second) == Render(second) + [];
    ExtractMarker(second, []);
  }

  /** A two-recommendation answer yields both model names, in order. */
  lemma DocExample()
    ensures ExtractModels("[type:denoise]:(model:scunet) and [type:derain]:(model:idt)") == ["scunet", "idt"]
  {
    DocExampleText();
    DocExampleParsed();
  }

  /** A `(model:` whose name is not closed before the next marker is not skipped:
      its name runs to the next `)`, swallowing that marker up to its own `)`. */
  lemma UnterminatedSwallows(task: string, name: string, next: Marker, rest: string)
    requires task != [] && ']' !in task && name != [] && ')' !in name
    requires WellFormed(next) && ')' !in next.task
    ensures ExtractModels(TypeOpen + task + ModelOpen + name + Render(next) + rest)
         == [name + Render(next)[..|Render(next)| - 1]] + ExtractModels(rest)
  {
    var r := Render(next);
    var open := r[..|r| - 1];
    assert r == open + ")";
    assert open == TypeOpen + next.task + ModelOpen + next.model;
    var big := Marker(task, name + open);
    assert ')' !in open;
    assert TypeOpen + task + ModelOpen + name + r + rest == Render(big) + rest;
    ExtractMarker(big, rest);
  }

  /** The text of the swallowing example is one marker whose model name runs
      to the only `)`. */
  lemma SwallowText()
    ensures Render(Marker("a", "b [type:c]:(model:d")) == "[type:a]:(model:b [type:c]:(model:d)"
  {
  }

  /** The concrete case: the second marker's own name `d` is lost. */
  lemma SwallowExample()
    ensures ExtractModels("[type:a]:(model:b [type:c]:(model:d)") == ["b [type:c]:(model:d"]
  {
    var big := Marker("a", "b [type:c]:(model:d");
    SwallowText();
    assert WellFormed(big);
    assert Render(big) == Render(big) + [];
    ExtractMarker(big, []);
  }
}
