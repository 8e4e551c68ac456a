/**
 The inference run: for each image name of the folder listing, choose an
 instruction at random, wrap it in the chat template, generate, trim the
 decoded text, parse the model names from it, score them with the tool
 engine and record `{score, response, instruction}` under the image name.

 The folder listing, the generator, the random draws and the tool engine
 are parameters: `draw(step)` is the raw draw behind the step's `randint`,
 `generate(step, path, prompt)` the decoded text for that image and prompt
 (sampling may differ from step to step), and `score(path, models)` what
 the tool engine returns.
 */
module Inference {
  import opened PyStr
  import opened Parser
  import Response
  import Scanner

  /** What is recorded for one image. */
  datatype Record<S> = Record(score: S, response: string, instruction: string)

  /** `random.randint(lo, hi)`: both ends included; `raw` is the generator's draw. */
  function RandInt(lo: int, hi: int, raw: nat): (r: int)
    requires lo <= hi
    ensures lo <= r <= hi
  {
    lo + raw % (hi - lo + 1)
  }

  /** `os.path.join(folder, name)` with two parts: an absolute name replaces
      the folder, otherwise a `/` separates them unless the folder is empty or
      already ends with one. */
  function JoinPath(folder: string, name: string): (r: string)
    ensures |name| <= |r| && r[|r| - |name|..] == name
    ensures !(name != [] && name[0] == '/') ==> folder <= r
  {
    if name != [] && name[0] == '/' then name
    else if folder == [] || folder[|folder| - 1] == '/' then folder + name
    else folder + "/" + name
  }

  const UserTurn: string := "<|start_header_id|>user<|end_header_id|>\n\n<image>\n"
  const AssistantTurn: string := "<|eot_id|><|start_header_id|>assistant<|end_header_id|>\n\n"

  /** The conversation the instruction is placed in: the user turn, the
      instruction right after it, then the end of the turn and the assistant's
      header. */
  function ChatPrompt(instruction: string): (r: string)
    ensures |r| == |UserTurn| + |instruction| + |AssistantTurn|
    ensures UserTurn <= r && OccursAt(r, instruction, |UserTurn|)
    ensures r[|UserTurn| + |instruction|..] == AssistantTurn
  {
    UserTurn + instruction + AssistantTurn
  }

  /** The instruction chosen at a step: `prompts[randint(0, len(prompts) - 1)]`;
      the script passes its prompt library, `Prompts.Prompts`. */
  function Instruction(prompts: seq<string>, raw: nat): (r: string)
    requires prompts != []
    ensures r in prompts
  {
    prompts[RandInt(0, |prompts| - 1, raw)]
  }

  /** One pass of the loop body for the image `name` at position `step`. */
  function Process<S>(prompts: seq<string>, folder: string, step: nat, name: string, draw: nat -> nat,
                      generate: (nat, string, string) -> string,
                      score: (string, seq<string>) -> S): (r: Record<S>)
    requires prompts != []
    ensures r.instruction in prompts
    ensures r.response == Response.Respond(generate(step, JoinPath(folder, name), ChatPrompt(r.instruction)))
    ensures r.score == score(JoinPath(folder, name), ExtractModels(r.response))
  {
    var path := JoinPath(folder, name);
    var instruction := Instruction(prompts, draw(step));
    var response := Response.Respond(generate(step, path, ChatPrompt(instruction)));
    Record(score(path, ExtractModels(response)), response, instruction)
  }

  /** No later position of `names` repeats the name at `k`. */
  predicate LastOccurrence(names: seq<string>, k: int)
    requires 0 <= k < |names|
  {
    forall j :: k < j < |names| ==> names[j] != names[k]
  }

  /** The mapping built by visiting `names` in order and storing `f(step, name)`
      under each name; a later store under the same name replaces an earlier one. */
  function Recorded<R>(names: seq<string>, f: (nat, string) -> R): (r: map<string, R>)
    ensures forall x :: x in r <==> x in names
    decreases |names|
  {
    if names == [] then map[]
    else
      var n := |names| - 1;
      assert forall x :: x in names <==> x in names[..n] || x == names[n];
      Recorded(names[..n], f)[names[n] := f(n, names[n])]
  }

  /** The entry of a name is the one stored at its last position. */
  lemma {:induction false} RecordedLast<R>(names: seq<string>, f: (nat, string) -> R, k: nat)
    requires k < |names| && LastOccurrence(names, k)
    ensures names[k] in Recorded(names, f) && Recorded(names, f)[names[k]] == f(k, names[k])
    decreases |names|
  {
    var n := |names| - 1;
    if k < n {
      var prefix := names[..n];
      assert prefix[k] == names[k];
      assert LastOccurrence(prefix, k);
      RecordedLast(prefix, f, k);
    }
  }

  /** Every entry was stored at some position of its name. */
  lemma {:induction false} RecordedFrom<R>(names: seq<string>, f: (nat, string) -> R, x: string)
    requires x in Recorded(names, f)
    ensures exists k :: 0 <= k < |names| && names[k] == x && Recorded(names, f)[x] == f(k, x)
    decreases |names|
  {
    var n := |names| - 1;
    if names[n] != x {
      var prefix := names[..n];
      RecordedFrom(prefix, f, x);
      var k :| 0 <= k < |prefix| && prefix[k] == x && Recorded(prefix, f)[x] == f(k, x);
      assert names[k] == x;
    }
  }

  /** A listing without repeated names gives exactly one entry per name. */
  lemma {:induction false} RecordedOfDistinct<R>(names: seq<string>, f: (nat, string) -> R)
    requires forall j, k :: 0 <= j < k < |names| ==> names[j] != names[k]
    ensures |Recorded(names, f)| == |names|
    ensures forall k :: 0 <= k < |names| ==> Recorded(names, f)[names[k]] == f(k, names[k])
    decreases |names|
  {
    if names != [] {
      var n := |names| - 1;
      var prefix := names[..n];
      RecordedOfDistinct(prefix, f);
      assert names[n] !in prefix;
    }
    forall k | 0 <= k < |names| {
      RecordedLast(names, f, k);
    }
  }

  /** The loop body as a function of the step and the image name. */
  function Step<S>(prompts: seq<string>, folder: string, draw: nat -> nat,
                   generate: (nat, string, string) -> string,
                   score: (string, seq<string>) -> S): (nat, string) -> Record<S>
    requires prompts != []
  {
    (step: nat, name: string) => Process(prompts, folder, step, name, draw, generate, score)
  }

  /** What the results mapping holds after the whole listing: every listed name
      gets an entry, a repeated name keeps the record of its last step, and
      every recorded instruction is one of the prompts. */
  lemma ResultsFacts<S>(prompts: seq<string>, folder: string, names: seq<string>, draw: nat -> nat,
                        generate: (nat, string, string) -> string,
                        score: (string, seq<string>) -> S)
    requires prompts != []
    ensures var results := Recorded(names, Step(prompts, folder, draw, generate, score));
      forall k :: 0 <= k < |names| && LastOccurrence(names, k) ==>
        results[names[k]] == Process(prompts, folder, k, names[k], draw, generate, score)
    ensures var results := Recorded(names, Step(prompts, folder, draw, generate, score));
      forall x :: x in results ==> results[x].instruction in prompts
  {
    var f := Step(prompts, folder, draw, generate, score);
    forall k | 0 <= k < |names| && LastOccurrence(names, k) {
      RecordedLast(names, f, k);
    }
    forall x | x in Recorded(names, f) {
      RecordedFrom(names, f, x);
    }
  }

  /** The loop of the script, accumulating the results mapping in place; the
      script runs it with its prompt library, `Prompts.Prompts`. */
  method Run<S>(prompts: seq<string>, folder: string, names: seq<string>, draw: nat -> nat,
                generate: (nat, string, string) -> string,
                score: (string, seq<string>) -> S) returns (results: map<string, Record<S>>)
    requires prompts != []
    ensures results == Recorded(names, Step(prompts, folder, draw, generate, score))
    ensures forall x :: x in results <==> x in names
    ensures forall k :: 0 <= k < |names| && LastOccurrence(names, k) ==>
              results[names[k]] == Process(prompts, folder, k, names[k], draw, generate, score)
    ensures forall x :: x in results ==> results[x].instruction in prompts
  {
    ghost var f := Step(prompts, folder, draw, generate, score);
    results := map[];
    var step := 0;
    while step < |names|
      invariant 0 <= step <= |names|
      invariant results == Recorded(names[..step], f)
    {
      var name := names[step];
      var path := JoinPath(folder, name);
      var instruction := prompts[RandInt(0, |prompts| - 1, draw(step))];
      var text := generate(step, path, ChatPrompt(instruction));
      text := Response.FromAnswer(text);
      text := Response.UntilEot(text);
      var models := Scanner.FindAll(text);
      results := results[name := Record(score(path, models), text, instruction)];
      assert names[..step + 1][..step] == names[..step];
      step := step + 1;
    }
    assert names[..step] == names;
    ResultsFacts(prompts, folder, names, draw, generate, score);
  }
}
