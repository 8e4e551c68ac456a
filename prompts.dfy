/**
 The prompt library: twenty phrasings of one request, each ending with the
 same catalog of restoration tasks and candidate tools. The catalog is
 only text; it is not consulted when answers are parsed.
 */
module Prompts {
  import opened PyStr

  /** The task and tool catalog, exactly as the continued string literal
      spells it (each line break and its backslash vanish, the indentation
      of the next line stays). */
  const AllTasks: string :=
    " {denoise: [scunet, restormer], lighten: [retinexformer_fivek, hvicidnet, lightdiff], "
    + "                derain: [idt, turbo_rain, s2former], defog:[ridcp, kanet], "
    + "                desnow:[turbo_snow, snowmaster], super_resolution: [real_esrgan], "
    + "            }"

  /** A phrasing completed with the catalog and a closing period: the head
      comes first and the catalog follows it immediately. */
  function WithCatalog(head: string): (r: string)
    ensures |r| == |head| + |AllTasks| + 1
    ensures r[..|head|] == head && OccursAt(r, AllTasks, |head|)
    ensures r[|r| - 1] == '.'
  {
    var r := head + AllTasks + ".";
    assert r[|head|..|head| + |AllTasks|] == AllTasks;
    r
  }

  /** The phrasings, up to the place where the catalog is interpolated. */
  const Heads: seq<string> := [
    "Considering the image's degradation, suggest the required tasks with explanations, and identify suitable tools for each task. Options for tasks and tools include: ",
    "Given the image's degradation, outline the essential tasks along with justifications, and choose the appropriate tools for each task from the following options: ",
    "Please specify the tasks required due to the image's degradation, explain the reasons, and select relevant tools for each task from the provided options: ",
    "Based on the image degradation, determine the necessary tasks and their reasons, along with the appropriate tools for each task. Choose from these options: ",
    "Identify the tasks required to address the image's degradation, including the reasons for each, and select tools from the options: ",
    "Considering the degradation observed, list the tasks needed and their justifications, then pick the most suitable tools for each task from these options: ",
    "Evaluate the image degradation, and based on that, provide the necessary tasks and reasons, along with tools chosen from the options: ",
    "With respect to the image degradation, outline the tasks needed and explain why, selecting tools from the following list: ",
    "Given the level of degradation in the image, specify tasks to address it, include reasons, and select tools for each task from: ",
    "Examine the image's degradation, propose relevant tasks and their explanations, and identify tools from the options provided: ",
    "Based on observed degradation, detail the tasks required, explain your choices, and select tools from these options: ",
    "Using the image's degradation as a guide, list the necessary tasks, include explanations, and pick tools from the provided choices: ",
    "Assess the image degradation, provide the essential tasks and reasons, and select the appropriate tools for each task from the options: ",
    "According to the image's degradation, determine which tasks are necessary and why, choosing tools for each task from: ",
    "Observe the degradation in the image, specify the needed tasks with justifications, and select appropriate tools from: ",
    "Taking the image degradation into account, specify tasks needed, provide reasons, and choose tools from the following: ",
    "Consider the image's degradation level, outline the tasks necessary, provide reasoning, and select suitable tools from: ",
    "Evaluate the degradation in the image, identify tasks required, explain your choices, and pick tools from: ",
    "Analyze the image degradation and suggest tasks with justifications, choosing the best tools from these options: ",
    "Review the image degradation, and based on it, specify tasks needed, provide reasons, and select tools for each task from: "
  ]

  /** Every head completed with the catalog, in order. */
  function Catalogued(heads: seq<string>): (r: seq<string>)
    ensures |r| == |heads|
    ensures forall k :: 0 <= k < |r| ==> r[k] == WithCatalog(heads[k])
  {
    if heads == [] then [] else Catalogued(heads[..|heads| - 1]) + [WithCatalog(heads[|heads| - 1])]
  }

  /** Different heads give different prompts. */
  lemma CatalogInjective(heads: seq<string>)
    requires forall j, k :: 0 <= j < k < |heads| ==> heads[j] != heads[k]
    ensures forall j, k :: 0 <= j < k < |heads| ==> Catalogued(heads)[j] != Catalogued(heads)[k]
  {
    var r := Catalogued(heads);
    forall j, k | 0 <= j < k < |heads|
      ensures r[j] != r[k]
    {
      if |heads[j]| == |heads[k]| {
        assert r[j][..|heads[j]|] == heads[j];
      }
    }
  }

  /** The prompt list, one entry per phrasing. */
  const Prompts: seq<string> := Catalogued(Heads)

  /** There are twenty prompts, no two alike, and every one of them carries the
      whole catalog and ends with a period. */
  lemma PromptLibrary()
    ensures |Prompts| == 20
    ensures forall j, k :: 0 <= j < k < |Prompts| ==> Prompts[j] != Prompts[k]
    ensures forall k :: 0 <= k < |Prompts| ==>
              Contains(Prompts[k], AllTasks) && Prompts[k][|Prompts[k]| - 1] == '.'
  {
    assert forall j, k :: 0 <= j < k < |Heads| ==> Heads[j] != Heads[k];
    CatalogInjective(Heads);
  }
}
