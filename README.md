# JarvisIR inference: answer handling, modelled in Dafny

JarvisIR's inference script goes through the images of a folder. For each
image it does five things:

1. It picks one of twenty prompt phrasings at random. Every phrasing ends with
   the same catalog of restoration tasks and tools.
2. It asks a vision-language model for a plan.
3. It cuts the decoded output down to the text from the first `<answer>` and
   stops before the first end-of-turn marker `<|eot_id|>`.
4. It extracts the recommended model names. These are the captures of
   `\[type:[^\]]+\]:\(model:([^)]+)\)` that `re.findall` returns.
5. It hands the names to the restoration tool engine for a score, and records
   `{score, response, instruction}` under the image's name.

This project models steps 1, 3, 4 and 5 and the loop around them, and proves
properties of that model. The modules are:

- `PyStr`: Python's `str.find`, which returns -1 when the needle is absent.
  Also the slices `s[start:]` and `s[:stop]`, where negative bounds count
  from the end.
- `Response`: the two trims on lines 168 and 169 of `inference.py`.
- `Parser`: `extract_models_from_answer` as a recursive specification. At
  each index the pattern is tried. A match delivers its model name, and the
  scan resumes after the match. Otherwise the scan moves on by one character.
- `Scanner`: the same scan written as a loop over indices, proved equal to
  the specification.
- `Prompts`: the task catalog `all_tasks` and the twenty prompts of
  `prompts_query2`, character for character.
- `Inference`: the choice of instruction, the chat template and one loop pass
  (`Process`). The results mapping is the specification `Recorded`. The loop
  itself is the method `Run`, which updates a map variable step by step.

Several things are parameters of the model:

- The folder listing.
- The raw random draw behind each step's `randint`.
- The generator: the decoded text for a step, an image path and a prompt.
- The tool engine's score.

`Run` also takes the prompt list as a parameter. The script passes
`Prompts.Prompts`, which `Prompts.PromptLibrary` shows is non-empty: it holds
twenty distinct prompts. `Run` therefore applies to the script's own list.

One might expect a malformed marker to be skipped while later markers are
still extracted. The regex does not do that. An unterminated `(model:` is
not skipped: its name runs on to the next `)` anywhere in the text, and
swallows the following marker. `Parser.UnterminatedSwallows` and `Parser.SwallowExample` state
this behaviour.

## Model

| member | source | states |
|---|---|---|
| PyStr.FindFrom | inference.py:168-169 | The search from index `i` returns -1 or an index at or after `i` where the needle occurs, and the needle occurs nowhere between `i` and the result. |
| PyStr.Find | inference.py:168-169 | `str.find`: -1 exactly when the needle does not occur. Otherwise the result is an occurrence, and no earlier index holds one. |
| PyStr.SliceIndex | inference.py:168-169 | A slice bound is kept when it is in range. A negative bound counts from the end. A bound past the end gives `n`, and one before `-n` gives `0`. |
| PyStr.SliceFrom | inference.py:168 | `s[start:]` is a suffix of `s`. It equals `s[start..]` for an in-range start. For `start == -1` it is the last character alone, or empty when `s` is empty. |
| PyStr.SliceTo | inference.py:169 | `s[:stop]` is a prefix of `s`. It equals `s[..stop]` for an in-range stop. For `stop == -1` it is `s` without its last character, or empty. |
| Response.FromAnswer | inference.py:168 | With `<answer>` present, the result is the suffix starting at the first occurrence of `<answer>`. Without it, the result is the last character alone, or empty. |
| Response.UntilEot | inference.py:169 | With the end-of-turn marker present, the result is the prefix that ends where its first occurrence starts, and the result itself holds none. Without it, the last character is dropped. |
| Response.Respond | inference.py:168-169 | The recorded response, after both trims in order, is a piece of the decoded text and never holds the end-of-turn marker. |
| Response.NoAnswerEmptyResponse | inference.py:168-169 | A decoded text without `<answer>` is recorded as the empty response. |
| Response.NoEotInsideAnswerTag | inference.py:168-169 | A text that starts with `<answer>` has no end-of-turn marker that starts inside that marker. |
| Response.ResponseKeepsAnswerTag | inference.py:168-169 | When `<answer>` is present, the response starts with `<answer>`. The one exception is a text with no end-of-turn marker whose first trim leaves only the bare marker. |
| Parser.TakeUntil | inference.py:71 | A greedy run of `[^c]`: the result is a prefix without `c`, and it stops at a `c` or at the end. |
| Parser.TakeUntilUnique | inference.py:71 | These three properties determine the greedy run, so backtracking cannot give another split. |
| Parser.MatchPrefix | inference.py:71 | A match found at the front is a well-formed marker whose text is a prefix of the input. |
| Parser.MatchPrefixComplete | inference.py:71 | Every well-formed marker that is a prefix of the text is the match found there. Matches are unique. |
| Parser.MatchPrefixNone | inference.py:71 | The pattern fails at the front exactly when no marker starts there. |
| Parser.ExtractModels | inference.py:60-73 | `extract_models_from_answer`: every returned name is non-empty and contains no `)`. |
| Parser.ExtractMarker | inference.py:71-72 | A marker at the front contributes its name, and the scan resumes right after that marker. |
| Parser.ExtractFiller | inference.py:71-72 | Text without `[` contributes nothing. |
| Parser.NoMarkerNoModels | inference.py:72 | A text with no match anywhere yields `[]`. |
| Parser.MarkerGivesModel | inference.py:72 | A text with a match at any index yields at least one name. |
| Parser.ExtractEmptyIff | inference.py:72 | The result is `[]` exactly when the text holds no match: both directions. |
| Parser.ExtractAppend | inference.py:72 | When no match straddles the split, parsing `a + b` gives the names of `a` followed by those of `b`. Matches are left to right and never overlap. The hypothesis looks at every possible match in `a`, not only the matches the scan reports, so it is stricter than needed. |
| Parser.ExtractAppendMatch | inference.py:72 | The case of `ExtractAppend` where a match starts the text. |
| Parser.ExtractAppendMiss | inference.py:72 | The case of `ExtractAppend` where no match starts the text. |
| Parser.ExtractLayout | inference.py:70-72 | `k` well-formed markers placed among free text without `[` yield exactly their `k` names, in order, duplicates kept. |
| Parser.DocExample | inference.py:70-72 | `"[type:denoise]:(model:scunet) and [type:derain]:(model:idt)"` yields `["scunet", "idt"]`. |
| Parser.UnterminatedSwallows | inference.py:71-72 | An unterminated `(model:` followed by a marker takes as its name everything up to that marker's `)`. The scan then goes on after that `)`. |
| Parser.SwallowExample | inference.py:71-72 | `"[type:a]:(model:b [type:c]:(model:d)"` yields `["b [type:c]:(model:d"]`. |
| Scanner.SkipUntil | inference.py:71 | The loop stops at the first `c` at or after `from`, or at the end. |
| Scanner.ModelRun | inference.py:71 | Once both openings are found, the pattern matches exactly when the model run is non-empty and closed by `)`. The match then ends right after that `)`. |
| Scanner.MatchAt | inference.py:71-72 | The pattern tried at index `i` gives the specification's match. The scan resumes after the match, or one index further on. |
| Scanner.FindAll | inference.py:72 | The imperative `findall` loop returns exactly `ExtractModels(s)`. |
| Prompts.WithCatalog | inference.py:124-145 | An f-string prompt: the head, then the catalog at the head's end, then a final `.`. |
| Prompts.Catalogued | inference.py:124-145 | Each head is completed with the catalog, position by position. |
| Prompts.CatalogInjective | inference.py:124-145 | Distinct heads give distinct prompts. |
| Prompts.PromptLibrary | inference.py:118-145 | There are twenty prompts, pairwise distinct. Each contains the whole catalog and ends with a period. |
| Inference.RandInt | inference.py:150 | `randint(lo, hi)` lies in `lo..hi`, both ends included. |
| Inference.JoinPath | inference.py:149 | `os.path.join(folder, name)` ends with `name`. It starts with `folder` unless `name` is absolute. |
| Inference.ChatPrompt | inference.py:151-152 | The chat prompt is the user turn, then the instruction, then the end-of-turn marker and the assistant header, and nothing else. |
| Inference.Instruction | inference.py:150 | The chosen instruction is one of the prompts. The index `randint(0, len - 1)` is in range. |
| Inference.Process | inference.py:149-172 | One pass records an instruction from the prompts. The response is the twice-trimmed output for the chat prompt of that instruction. The score is the engine's score for the names parsed from that response. |
| Inference.Recorded | inference.py:148-172 | The results mapping has a key for exactly the listed names. |
| Inference.RecordedLast | inference.py:148-172 | A name's entry is the record of its last position in the listing: a later assignment overwrites an earlier one. |
| Inference.RecordedFrom | inference.py:148-172 | Each entry is the record stored at some position of its own name. |
| Inference.RecordedOfDistinct | inference.py:148-172 | Distinct names give one entry per name: the map has as many entries as the listing, and each holds its own step's record. |
| Inference.ResultsFacts | inference.py:148-172 | After the whole listing, each name holds its last step's record, and every recorded instruction is one of the prompts. |
| Inference.Run | inference.py:148-172 | The loop's map equals `Recorded` over the listing. Its keys are exactly the listed names, and a name's value is the record of its last step. Every instruction is one of the prompts. |

## Left out

- `build_model` (lines 18-50) loads network weights, which is outside the model. Its `assert` on a non-empty string never fails, so other architectures fall through and return `None`.
- `set_random_seed` (lines 52-58) only seeds generators. The model takes each step's raw draw as a parameter instead.
- `Inference.RandInt`: the Mersenne Twister and the uniformity of `randint` are not modelled. The result is `lo + raw % (hi - lo + 1)` over an abstract raw draw, which fixes the range but not the distribution.
- The tokenizer, `model.generate` with its sampling settings, and `processor.decode` (lines 153-167) are a neural network and its I/O. The abstract `generate` parameter stands for them.
- `RestorationToolkit.process_image` (line 170) runs the restoration tools. The abstract `score` parameter stands for it, and the score type is generic.
- Command-line parsing, `os.makedirs`, `SummaryWriter`, `Image.open` and the final `json.dump` (lines 75-106, 160-161, 174-176) are I/O. `os.listdir` is the `names` parameter, in listing order.
- `Inference.JoinPath`: only the two-argument form that the script uses is modelled.
- `Inference.Run`: the prompt list is a parameter rather than the module-level list. The script's list is `Prompts.Prompts`, whose properties `Prompts.PromptLibrary` states.
- `Prompts`: the catalog is text only. No mapping from tasks to tools is built from it, and the parser does not consult it.
- Python's dict keeps insertion order, which `json.dump` writes out. The results are a Dafny map, so that order is not captured.
- `generate`, `score` and the image read are total functions in the model. An exception that aborts the whole run is not modelled.
- `llava_8b_full.py` (the xtuner fine-tuning configuration: declarative dicts, no logic of its own) and `realesrgan/data/__init__.py` (dataset registration) are not part of this model.
