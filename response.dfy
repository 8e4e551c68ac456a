/**
 The two trims applied to the decoded model output before it is parsed:
 keep the text from the first `<answer>` on, then cut it before the first
 `<|eot_id|>`. Both are driven by `find`, so a missing marker yields -1
 and the slices then keep only the last character, or drop it.
 */
module Response {
  import opened PyStr

  const AnswerTag: string := "<answer>"
  const EotTag: string := "<|eot_id|>"

  /** `text[text.find('<answer>'):]` */
  function FromAnswer(text: string): (r: string)
    ensures Contains(text, AnswerTag) ==>
              AnswerTag <= r && |r| <= |text| && r == text[|text| - |r|..] &&
              forall j :: 0 <= j < |text| - |r| ==> !OccursAt(text, AnswerTag, j)
    ensures !Contains(text, AnswerTag) ==> r == if text == [] then [] else [text[|text| - 1]]
  {
    SliceFrom(text, Find(text, AnswerTag))
  }

  /** An occurrence inside a prefix is an occurrence in the whole text. */
  lemma OccursInPrefix(r: string, text: string, sub: string, j: int)
    requires r <= text && OccursAt(r, sub, j)
    ensures OccursAt(text, sub, j)
  {
    assert text[j..j + |sub|] == r[j..j + |sub|];
  }

  /** `text[:text.find("<|eot_id|>")]` */
  function UntilEot(text: string): (r: string)
    ensures Contains(text, EotTag) ==> r <= text && OccursAt(text, EotTag, |r|) && !Contains(r, EotTag)
    ensures !Contains(text, EotTag) ==> r == if text == [] then [] else text[..|text| - 1]
  {
    var i := Find(text, EotTag);
    var r := SliceTo(text, i);
    assert i != -1 ==> !Contains(r, EotTag) by {
      if i != -1 && Contains(r, EotTag) {
        var j :| OccursAt(r, EotTag, j);
        OccursInPrefix(r, text, EotTag, j);
      }
    }
    r
  }

  /** The response recorded for an image: both trims, in order. It is a piece
      of the decoded text and never holds `<|eot_id|>`. */
  function Respond(decoded: string): (r: string)
    ensures Contains(decoded, r)
    ensures !Contains(r, EotTag)
  {
    var a := FromAnswer(decoded);
    var r := UntilEot(a);
    assert !Contains(r, EotTag) by {
      if !Contains(a, EotTag) && Contains(r, EotTag) {
        var j :| 0 <= j <= |r| && OccursAt(r, EotTag, j);
        OccursInPrefix(r, a, EotTag, j);
      }
    }
    var off := |decoded| - |a|;
    assert decoded[off..off + |r|] == r by {
      assert a == decoded[off..];
      assert a[..|r|] == r;
    }
    assert OccursAt(decoded, r, off);
    r
  }

  /** Without an `<answer>` marker the response is empty: the first trim keeps at
      most one character, which is too short to hold `<|eot_id|>`, so the second
      trim drops it. */
  lemma NoAnswerEmptyResponse(decoded: string)
    requires !Contains(decoded, AnswerTag)
    ensures Respond(decoded) == []
  {
    var a := FromAnswer(decoded);
    assert |a| < |EotTag|;
  }

  /** A text that starts with `<answer>` has no `<|eot_id|>` among its first
      eight characters: the only `<` there is the first one, and it is followed
      by `a`, not `|`. */
  lemma NoEotInsideAnswerTag(s: string, p: int)
    requires AnswerTag <= s && OccursAt(s, EotTag, p)
    ensures p >= |AnswerTag|
  {
    var w := s[p..p + |EotTag|];
    assert s[p] == w[0] == '<' && s[p + 1] == w[1] == '|';
    var a := s[..|AnswerTag|];
    assert s[1] == a[1] == 'a';
    assert forall k :: 0 < k < |AnswerTag| ==> s[k] == a[k] != '<';
  }

  /** When `<answer>` is present, the response keeps the whole marker unless the
      second trim finds no `<|eot_id|>` and the text after the first trim is the
      bare marker (then dropping its last character cuts it). */
  lemma ResponseKeepsAnswerTag(decoded: string)
    requires Contains(decoded, AnswerTag)
    requires Contains(FromAnswer(decoded), EotTag) || |FromAnswer(decoded)| > |AnswerTag|
    ensures AnswerTag <= Respond(decoded)
  {
    var a := FromAnswer(decoded);
    var r := UntilEot(a);
    if Contains(a, EotTag) {
      NoEotInsideAnswerTag(a, |r|);
    }
    assert a[..|AnswerTag|] == AnswerTag;
    assert r[..|AnswerTag|] == a[..|AnswerTag|];
  }
}
