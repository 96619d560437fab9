# Marketing Content Engine: video concatenation and workflow patching, in Dafny

This project models three small programs of the Marketing Content Engine and
proves properties of the models.

- **The video concatenation service** (`ConcatService`, `concat_service.dfy`) is
  the `POST /concat` handler `concat_videos`. It names a per-job workspace
  `/tmp/concat_<job id>`. It downloads scene `i` to `<workspace>/scene_<i>.mp4`
  with `curl`, in index order, and stops at the first failure. It writes the
  ffmpeg concat manifest (`file '<path>'` plus a newline per scene). It runs
  `ffmpeg -f concat -safe 0 -i <manifest> -c copy <output>` and answers with
  the `file://` URL of the output, the job id and the scene count. Any failure
  becomes HTTP 500.
- **The workflow-id hardcoding script** (`WorkflowIds`, `workflow_ids.dfy`) does
  several things:
  - It parses `Name=ID` lines from the ids file. Blank lines and `#` comments
    are skipped, the line is cut at the first `=`, and a later line wins.
  - It maps the fixed eight-entry table of workflow names to `={{ $env.VAR }}`
    expressions.
  - It recovers the variable name from an expression for the summary printout.
  - It replaces the expressions by the ids in every `.json` file of the two
    workflow directories. It works on the text as text-mode reading gives
    it, with every line end turned into `\n`. A file is written back only
    when that text changed, and the script reports the count arithmetic
    exactly as written.
- **The mock-mode patch** (`MockMode`, `mock_mode.dfy`) is
  `patch_production_dispatcher`, modelled as a pure function on the
  workflow's node list. It replaces the `jsCode` of the first
  `Route to Provider` node with the mock-aware router code. It prefixes the
  `jsCode` of the first `Parse Response` node with the mock-mode guard,
  unless that code already mentions `mock_mode`.

`PyStr` (`pystr.dfy`) defines the parts of Python's `str` the programs use:
- `strip()`, with Python's white-space set;
- `startswith` and `endswith`;
- `in` and `find`;
- `split(sep)` and `sep.join`;
- `replace` and `count`;
- `str()` of a natural number.

Each operation is defined once, the way CPython computes it. `Wrappers`
(`wrappers.dfy`) holds `Option` and `Result`.

External effects are parameters:
- `curl(i)` is the outcome of downloading scene `i`.
- `ffmpegOk` is the outcome of the join.
- The job id, a fresh UUID in the service, is an argument.
- A missing ids file is `None`.
- A directory is its listing of `(name, text)` pairs, in listing order.

Two behaviours of the handler are easy to miss, and the model keeps both:
- The handler does not reject an empty scene list. The list yields an empty
  manifest, and the result then depends only on ffmpeg
  (`ConcatService.ConcatVideos`).
- The handler never removes the workspace, on success or on failure.

## Model

| member | source | states |
|---|---|---|
| ConcatService.ScenePaths | video-concat-service/app.py:31-32 | the first `n` scenes get `n` paths, scene `i` the path `<workspace>/scene_i.mp4`, and no two scenes share a path |
| ConcatService.ScenePathsDistinct | video-concat-service/app.py:31-32 | two different indices below `n` never get the same download path |
| ConcatService.TempDirInjective | video-concat-service/app.py:25-26 | two job ids with the same workspace path are the same id |
| ConcatService.ScenePathInjective | video-concat-service/app.py:31-32 | within one workspace, two indices with the same scene path are equal |
| ConcatService.ScenePathsOfJobsDisjoint | video-concat-service/app.py:25-32 | a scene path determines both its job id and its index, so no two jobs or scenes share a download file |
| ConcatService.DownloadScenes | video-concat-service/app.py:29-37 | all scenes are fetched exactly when every download succeeds; call `i` is `curl -o <workspace>/scene_i.mp4 <url_i>`; a failure at index k means every earlier download succeeded and nothing after k was attempted |
| ConcatService.Manifest | video-concat-service/app.py:40-43 | the manifest is empty iff there are no files; otherwise it starts with `file '` and the first path, and ends with the last path, a quote and a newline |
| ConcatService.WriteManifest | video-concat-service/app.py:39-43 | writing one `file '<path>'` line per file, in order, yields the manifest of the whole list |
| ConcatService.ManifestAppend | video-concat-service/app.py:42-43 | the manifest of a concatenated list is the concatenation of the manifests |
| ConcatService.ManifestRoundTrip | video-concat-service/app.py:40-43 | reading the manifest back yields exactly the scene files, in order, when no path contains a newline |
| ConcatService.ManifestLineCount | video-concat-service/app.py:40-43 | the manifest has exactly one newline per scene file |
| ConcatService.ScenePathsNewlineFree | video-concat-service/app.py:26-32 | scene paths contain no newline when the job id does not, so the manifest round trip applies to them |
| ConcatService.ConcatVideos | video-concat-service/app.py:20-66 | a manifest is written iff every download succeeds, and it lists the scene paths in order; ffmpeg runs iff the manifest was written, with the concat/stream-copy arguments; the response is a success iff the downloads and ffmpeg succeed, with the `file://` output URL, the job id and the scene count; every failure is HTTP 500, caused by the first failing download or by ffmpeg; an empty scene list gives an empty manifest |
| WorkflowIds.UniversalNewlines | brand-infinity-workflows/hardcode_workflow_ids.py:40-41 | the text that text-mode reading yields contains no carriage return |
| WorkflowIds.NewlineReplacesTranslate | brand-infinity-workflows/hardcode_workflow_ids.py:40-41 | replacing `\r\n` and then `\r` by `\n` is the same as translating each line end on its own |
| WorkflowIds.FileLines | brand-infinity-workflows/hardcode_workflow_ids.py:40-41 | no line holds a line-end character, and joining the lines with `\n` gives the file's text with universal newlines |
| WorkflowIds.ParseLine | brand-infinity-workflows/hardcode_workflow_ids.py:41-50 | an entry's name and id are already stripped, and the name contains no `=` |
| WorkflowIds.ParseLineNone | brand-infinity-workflows/hardcode_workflow_ids.py:42-48 | a line adds nothing iff, once stripped, it is empty, starts with `#` or has no `=` |
| WorkflowIds.ParseLineSome | brand-infinity-workflows/hardcode_workflow_ids.py:48-50 | a line that adds an entry is cut at its first `=`, and the entry is the two stripped halves |
| WorkflowIds.ParseLineIdLacks | brand-infinity-workflows/hardcode_workflow_ids.py:42-50 | an id parsed from a line holds no character the line lacks |
| WorkflowIds.CollectIdsLack | brand-infinity-workflows/hardcode_workflow_ids.py:40-52 | the dictionary's values lack any character that every entry's id lacks |
| WorkflowIds.LoadedIdsLackCr | brand-infinity-workflows/hardcode_workflow_ids.py:40-52 | no id loaded from the ids file holds a carriage return |
| WorkflowIds.ParseLineSpec | brand-infinity-workflows/hardcode_workflow_ids.py:41-50 | a line adds nothing iff, once stripped, it is empty, starts with `#` or has no `=`; otherwise it gives the stripped text before its first `=` and the stripped text after it |
| WorkflowIds.CollectLastWins | brand-infinity-workflows/hardcode_workflow_ids.py:40-52 | a name is in the dictionary iff some entry defines it, and its value is the id of the last entry that does |
| WorkflowIds.LoadIdsLastWins | brand-infinity-workflows/hardcode_workflow_ids.py:40-52 | the same, on the ids file's lines: a name is loaded iff some line defines it, and its value comes from a line after which no line redefines it |
| WorkflowIds.LoadWorkflowIds | brand-infinity-workflows/hardcode_workflow_ids.py:35-38 | no dictionary exactly when the ids file is missing |
| WorkflowIds.ReplacementMapEntries | brand-infinity-workflows/hardcode_workflow_ids.py:55-66 | every table name with an id yields the pair (its `={{ $env.VAR }}` expression, its id), and every pair of the map arises that way |
| WorkflowIds.ReplacementsSound | brand-infinity-workflows/hardcode_workflow_ids.py:59-64 | every pair built from a part of the table comes from an entry of that part whose name has an id |
| WorkflowIds.CreateReplacementMap | brand-infinity-workflows/hardcode_workflow_ids.py:55-66 | at most one pair per table entry (eight), each keyed by a non-empty expression, and no two pairs share a key, so the list is the dictionary's items in insertion order |
| WorkflowIds.EnvExpressionInjective | brand-infinity-workflows/hardcode_workflow_ids.py:62 | two variables with the same `={{ $env.VAR }}` expression are the same variable |
| WorkflowIds.TableVarsDistinct | brand-infinity-workflows/hardcode_workflow_ids.py:19-28 | the eight variables of the table are pairwise distinct |
| WorkflowIds.ReplacementKeyFresh | brand-infinity-workflows/hardcode_workflow_ids.py:59-64 | a variable that no table entry holds gives a key that no pair built from the table has |
| WorkflowIds.ReplacementKeysDistinct | brand-infinity-workflows/hardcode_workflow_ids.py:59-64 | a table with distinct variables yields pairs with distinct keys |
| WorkflowIds.ReplacementIdsLack | brand-infinity-workflows/hardcode_workflow_ids.py:63-64 | every pair's id is a value of the dictionary, so it lacks any character that every value lacks |
| WorkflowIds.NoIdsNoReplacements | brand-infinity-workflows/hardcode_workflow_ids.py:59-66 | when no table name has an id the map is empty |
| WorkflowIds.ExtractVarName | brand-infinity-workflows/hardcode_workflow_ids.py:113 | a name is recovered iff the expression contains `$env.`, and the name recovered contains no ` }}` |
| WorkflowIds.SplitAtPrefix | brand-infinity-workflows/hardcode_workflow_ids.py:113 | splitting an expression at `$env.` gives, as its second piece, the variable followed by ` }}`, when the variable contains no `$env.` |
| WorkflowIds.SplitAtClose | brand-infinity-workflows/hardcode_workflow_ids.py:113 | splitting a name followed by ` }}` at ` }}` gives the name as the first piece, when the name contains no ` }}` |
| WorkflowIds.ExtractVarNameRoundTrip | brand-infinity-workflows/hardcode_workflow_ids.py:113 | splitting an expression at `$env.` and then at ` }}` recovers the variable it was built from, when that name contains neither marker |
| WorkflowIds.CloseHasNoPrefix | brand-infinity-workflows/hardcode_workflow_ids.py:113 | appending ` }}` to a name cannot create a `$env.` |
| WorkflowIds.PlainVarNameRecovered | brand-infinity-workflows/hardcode_workflow_ids.py:113 | a name without `$` or spaces is recovered from its expression |
| WorkflowIds.TableVarNamesPlain | brand-infinity-workflows/hardcode_workflow_ids.py:19-28 | none of the eight variable names of the table contains `$` or a space |
| WorkflowIds.TableVarNamesRecovered | brand-infinity-workflows/hardcode_workflow_ids.py:108-114 | the summary printout recovers every table variable from its own expression and never indexes past the split |
| WorkflowIds.ReplaceLoop | brand-infinity-workflows/hardcode_workflow_ids.py:78-81 | the `if expression in content` guard never changes the text: the loop's text is that of replacing every pair in order |
| WorkflowIds.ReplaceLoopAbsent | brand-infinity-workflows/hardcode_workflow_ids.py:78-81 | when no expression occurs, the loop changes neither the text nor the count |
| WorkflowIds.PatchWorkflowFile | brand-infinity-workflows/hardcode_workflow_ids.py:69-89 | the new text is every pair replaced in order; the file is written iff its text changed; an unwritten file reports 0 |
| WorkflowIds.PatchUntouched | brand-infinity-workflows/hardcode_workflow_ids.py:78-89 | a file containing no expression is left unwritten and reports 0 |
| WorkflowIds.SharedIdOvercount | brand-infinity-workflows/hardcode_workflow_ids.py:78-81 | the count is a difference of id occurrences, not of replacements: the text `={{ $env.A }} ={{ $env.B }}`, with both expressions mapped to the one id `x`, reports 3 changes for two replacements |
| WorkflowIds.PatchEntry | brand-infinity-workflows/hardcode_workflow_ids.py:69-89 | only a name ending in `.json` is patched, and the pairs are replaced in the file's text after text-mode reading (universal newlines); the file is rewritten with that text iff it differs from the text read, and is otherwise untouched; any other file, and a file not written back, counts nothing |
| WorkflowIds.DirectoryTotals | brand-infinity-workflows/hardcode_workflow_ids.py:122-131 | a pass counts at most every file as patched, and its change total is at least its patched-file count, since only positive counts are added |
| WorkflowIds.PatchDirectory | brand-infinity-workflows/hardcode_workflow_ids.py:122-131 | the listing keeps its length and order, each entry is treated on its own, and the totals satisfy the bounds above |
| WorkflowIds.HardcodeWorkflowIds | brand-infinity-workflows/hardcode_workflow_ids.py:92-149 | a missing ids file or an empty dictionary changes nothing; otherwise every file of both directories is treated as one entry is, every `.json` file getting every pair replaced in its text-mode view; the listings keep their lengths and names, and every other file is untouched |
| WorkflowIds.ApplyAllKeepsOut | brand-infinity-workflows/hardcode_workflow_ids.py:78-80 | replacing in order brings in no character that neither the text nor any id holds |
| WorkflowIds.DirectoryLineFeeds | brand-infinity-workflows/hardcode_workflow_ids.py:122-125 | a directory pass rewrites files without carriage returns when no id holds one |
| WorkflowIds.CrlfReadAsLineFeed | brand-infinity-workflows/hardcode_workflow_ids.py:71-72 | text-mode reading turns a final `\r\n` into `\n` |
| WorkflowIds.CrlfFileRewritten | brand-infinity-workflows/hardcode_workflow_ids.py:71-86 | a `.json` file holding `={{ $env.V }}` and a `\r\n` line end is rewritten as the id followed by `\n` |
| WorkflowIds.PatchedFilesUseLineFeeds | brand-infinity-workflows/hardcode_workflow_ids.py:71-86 | every workflow file the run rewrites holds no carriage return: a `\r\n` or `\r` read in text mode is written back as `\n` |
| MockMode.FirstNamed | brand-infinity-workflows/add_mock_mode.py:103-107 | the index found is that of the first node with the name, and no node has the name when none is found |
| MockMode.SetJsCodeOnlyCode | brand-infinity-workflows/add_mock_mode.py:105 | setting `jsCode` changes nothing else about the node, and the code then reads back |
| MockMode.PatchRoute | brand-infinity-workflows/add_mock_mode.py:103-107 | the first loop fails iff the first `Route to Provider` node has no parameters; otherwise only that node changes, and its code becomes the router code |
| MockMode.PatchParse | brand-infinity-workflows/add_mock_mode.py:110-137 | the second loop fails iff the first `Parse Response` node has no `jsCode`; otherwise only that node changes, and its code becomes the guarded code |
| MockMode.PatchProductionDispatcher | brand-infinity-workflows/add_mock_mode.py:95-142 | the patch fails iff one of the two nodes lacks the key it touches; otherwise every node keeps its name, fields and other parameters, nodes of other names are untouched, the router's code is the mock-aware code and the parser's is guarded |
| MockMode.FirstNamedSameNames | brand-infinity-workflows/add_mock_mode.py:103-111 | lists with the same names at every index have the same first node of each name, so the second loop finds the node the first loop would |
| MockMode.NoTargetsUnchanged | brand-infinity-workflows/add_mock_mode.py:103-137 | without a node of either name the workflow comes back unchanged |
| MockMode.InsertedCodeMentionsMockMode | brand-infinity-workflows/add_mock_mode.py:14-134 | both inserted texts mention `mock_mode` |
| MockMode.MentionsMarker | brand-infinity-workflows/add_mock_mode.py:113 | text written around `mock_mode` contains it |
| MockMode.GuardedCodeIdempotent | brand-infinity-workflows/add_mock_mode.py:112-135 | guarding already-guarded code changes nothing |
| MockMode.SetSameJsCode | brand-infinity-workflows/add_mock_mode.py:135 | writing back the code a node already has leaves it unchanged |
| MockMode.RouteFixed | brand-infinity-workflows/add_mock_mode.py:103-107 | the first loop leaves alone a list whose router already has the mock-aware code |
| MockMode.ParseFixed | brand-infinity-workflows/add_mock_mode.py:110-137 | the second loop leaves alone a list whose parser code already mentions `mock_mode` |
| MockMode.PatchIdempotent | brand-infinity-workflows/add_mock_mode.py:95-137 | running the patch on its own result changes nothing more |
| PyStr.StripSpec | brand-infinity-workflows/hardcode_workflow_ids.py:42 | `strip()` keeps a contiguous piece of the text that neither starts nor ends with white space, and everything it drops on either side is white space |
| PyStr.StripIdempotent | brand-infinity-workflows/hardcode_workflow_ids.py:42-50 | stripping twice equals stripping once |
| PyStr.FindFirst | brand-infinity-workflows/hardcode_workflow_ids.py:48-49 | the index found is the leftmost occurrence, and there is none when nothing is found |
| PyStr.SplitOn | brand-infinity-workflows/hardcode_workflow_ids.py:113 | `split(sep)` gives at least one piece, and no piece contains the separator |
| PyStr.SplitJoinRoundTrip | brand-infinity-workflows/hardcode_workflow_ids.py:113 | joining the pieces of `split(sep)` with `sep` gives the text back |
| PyStr.ReplaceIsJoinOfSplit | brand-infinity-workflows/hardcode_workflow_ids.py:80 | `replace(p, r)` equals splitting at `p` and joining with `r` |
| PyStr.StripKeepsOut | brand-infinity-workflows/hardcode_workflow_ids.py:49-50 | stripping never introduces a character the text lacked |
| PyStr.SplitLengthIff | brand-infinity-workflows/hardcode_workflow_ids.py:113 | `split(sep)` gives two or more pieces iff the text contains the separator |
| PyStr.SplitPiecesLack | brand-infinity-workflows/hardcode_workflow_ids.py:40-41 | a character missing from the text is missing from every piece of its split |
| PyStr.ReplaceKeepsOut | brand-infinity-workflows/hardcode_workflow_ids.py:80 | `replace` brings in no character that neither the text nor the replacement holds |
| PyStr.SuffixKeepsOut | brand-infinity-workflows/hardcode_workflow_ids.py:49 | a suffix holds no character the whole text lacks |
| PyStr.ReplaceAbsent | brand-infinity-workflows/hardcode_workflow_ids.py:79-80 | replacing a pattern that does not occur leaves the text unchanged |
| PyStr.CountAbsent | brand-infinity-workflows/hardcode_workflow_ids.py:81 | a non-empty pattern that does not occur is counted zero times |
| PyStr.CountIsSplitLength | brand-infinity-workflows/hardcode_workflow_ids.py:81 | `count(p)` is one less than the number of pieces of `split(p)` |
| PyStr.NatToString | video-concat-service/app.py:32 | `str(i)` is a non-empty string of decimal digits without a leading zero (except `0` itself) |
| PyStr.NatToStringRoundTrip | video-concat-service/app.py:32 | the decimal value of `str(i)` is `i` |
| PyStr.NatToStringInjective | video-concat-service/app.py:32 | distinct indices print differently |

## Left out

- The processes `curl` and `ffmpeg`, the network, the file system, `uuid4`, FastAPI request validation and the `/health` route are not modelled. Downloads and the join appear as success flags, and the job id is an argument.
- `os.makedirs` and `open` failures in the service are not modelled. They would become HTTP 500 like every other exception.
- The service's error `detail` text (`str(e)`) is abstracted to a cause: the index of the failing download, or ffmpeg.
- Files and directories in the scripts are raw texts and listings. Text-mode reading is modelled as the universal-newline translation. The ids file gets it through `WorkflowIds.FileLines`, and a workflow file gets it through `WorkflowIds.TextModePatch`, so a rewritten workflow file holds the translated text. `os.path.exists`, `os.listdir` order and every `print` are left out.
- `WorkflowIds.PatchEntry` writes `\n` line ends, as text mode does on POSIX. The translation of `\n` to `\r\n` that text-mode writing performs on Windows is not modelled.
- `json.load` and `json.dump` are not modelled. A workflow is its node list, and parameter values are strings. A node without a `name` (a `KeyError` in the script) is outside the model.
- `MockMode.PatchProductionDispatcher` reports a missing `parameters` map or a missing `jsCode` key as a failure value where the script raises `KeyError`. A missing `nodes` list is not modelled.
- `PyStr.ReplaceAll` and `PyStr.SplitOn` require a non-empty pattern. Every call of `replace` and `split` in these programs has one, so Python's empty-pattern behaviour of those two is left out.
- `PyStr.Count` has no such requirement. For the empty pattern it gives `len(s) + 1`, as Python does. `hardcode_workflow_ids.py` line 81 reaches that case when an id in the ids file is empty (`Name=`).
- `PyStr.Strip` handles characters, not the bytes of any encoding.
- `WorkflowIds.FileLines` models text-mode line iteration with universal newlines. A final line terminator yields an extra empty line, which the parser skips like any blank line.
- `ConcatService.ManifestRoundTrip` needs paths without newlines. `ConcatService.ScenePathsNewlineFree` shows that scene paths have none whenever the job id has none, which holds for a UUID.
- `WorkflowIds.HardcodeWorkflowIds` states the new texts, but not the patched-file and change totals of the summary printout. Those totals are computed in `WorkflowIds.DirectoryTotals`, whose contract bounds them but does not state them.
