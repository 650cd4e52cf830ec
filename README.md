# AI code quality analyzer: a verified model of its analysis core

This project models the analysis core of `code_analyzer.py` in Dafny and proves properties of that model. The core has six parts:

- **Issue detector** (`detect_issues`). It walks a file's syntax tree in `ast.walk` order. It reports naming, docstring, parameter-count, magic-number, empty-except and debug-print issues, then unused variables, then drops repeated (type, detail, context) keys.
- **Structure tally and AST complexity** (`extract_structure`, `cyclomatic_complexity_ast`). These count and list node kinds over the same walk.
- **Metrics scoring** (`analyze_metrics`). It turns per-function complexities and a maintainability index into warnings, an average, a score and a grade.
- **Feedback resolver** (`_parse_ai_response`, `_rule_based_feedback`, `generate_ai_feedback`, and the retry loop of `_call_openrouter`). It tries the configured engines in order and takes the first non-empty parsed answer. Otherwise it falls back to fixed templates.
- **Auto-fix** (`auto_fix_code`). It rewrites code line by line: debug prints are dropped and `+` in print lines is padded.
- **Scan exit decision** (`run_cli scan`). The commit is blocked when a report row has grade `Error` or warnings that mention `CRITICAL`.

The code works by updating local state in loops. Each loop is therefore a `method` with a `while` loop, proved equal to a specification function over a prefix of its input (`x == F(nodes[..i])`). The promised properties are lemmas about those functions.

Modules, one per concern:

- `Wrappers`: `Option`.
- `Text`: the Python `str` operations the code uses.
- `Sequences`: the keep-first-occurrence filter.
- `Ast`: the walk's node kinds.
- `Issues`: the issue record.
- `Detector`, `Structure`, `Metrics`, `Feedback`, `AutoFix`, `Scan`.

Inputs from outside the analyzer become parameters:

- A parsed file is the sequence of nodes `ast.walk` yields, or `Unparsable(message)`.
- The complexity library's output is a list of (name, complexity) pairs and a `real` maintainability index, or `Failed`.
- An engine call is a function `Engine -> EngineResult` (`Fail` or `Ok(raw)`).
- An HTTP attempt is a function `nat -> HttpReply`.
- Environment variables are strings, empty when unset.

Behaviour of the code that the model keeps and proves:

- `ast.walk` is breadth-first, and `current_function` is never restored. So an issue's context is the last function definition walked before it, not the function that encloses it lexically (`Detector.CurrentFunction`).
- Python dicts keep the position of a key's first insertion. So unused-variable issues come out in order of first assignment but carry the function current at the last assignment (`Detector.AssignOrderIsFirstAssignment`, `Detector.AssignedMeaning`). The unused-variable issues of the whole detector, in order, are exactly the post-pass reports over that key order (`Detector.UnusedVariableOrder`).
- Auto-fix is not idempotent. A second pass pads `a + b` to `a  +  b` (`AutoFix.PlusPaddingGrows`). On code with no `print(` it is idempotent (`AutoFix.AutoFixWithoutPrint`). Line 342 replaces `print(` by itself and changes nothing (`AutoFix.FirstRewriteIsNoOp`).
- Stripping enumerators does not always leave a suggestion that starts with something other than a digit, `.`, `-`, `)` or space. The line `"1.\t2. x"` parses to `"2. x"`, because `lstrip(chars)` stops at the tab and the following `strip()` removes it (`Feedback.ParseTabExample`). The guarantee holds when the response contains no whitespace other than spaces and newlines (`Feedback.ParseLead`).
- The scan decision reads only the grade column and the joined metrics warnings. It does not read the detected issues. A function of moderate complexity (6 to 10) whose name contains `CRITICAL` therefore also blocks the commit (`Scan.CriticalExactly`, `Scan.WarningMentionsCritical`).
- When no Python file is found, `analyze_project` returns `None`, and the scan's `df.iterrows()` raises (`Scan.ScanFiles` returns `Crash`).

## Model

| member | source | states |
|---|---|---|
| Detector.DetectIssues | code_analyzer.py:101-196 | returns `Detect(src)`: one CRITICAL "Syntax Error" issue for an unparsable file, otherwise the deduplicated raw issues; no two returned issues share a (type, detail, context) key |
| Detector.Walk | code_analyzer.py:109-177 | after the walk loop, the raw list, the key order and contents of `assigned`, the `used` set and the `parameters` dict are those of the whole node sequence |
| Detector.Visit | code_analyzer.py:114-177 | one node's effect on all six pieces of walk state, including the cursor moving to every `FunctionDef` |
| Detector.VisitFunctionDef | code_analyzer.py:115-135 | a function definition binds each parameter to the function and appends the function-definition issues |
| Detector.RecordParameters | code_analyzer.py:127-135 | every parameter is bound to the current function; each one shorter than 3 characters adds a "Poor parameter name" INFO issue |
| Detector.RecordTargets | code_analyzer.py:137-147 | each name target is appended to the key order if new, rebound to the current function, and reported as "Poor variable name" if shorter than 3 characters |
| Detector.ReportUnused | code_analyzer.py:179-186 | appends one "Unused variable" WARNING per assigned name, in key order, that is neither loaded nor a parameter |
| Detector.Dedup | code_analyzer.py:188-194 | the dedup loop returns the first occurrence of each key, in order |
| Detector.CurrentFunction | code_analyzer.py:112-116 | the cursor is `None` exactly when no function definition has been walked, and otherwise names the last one walked |
| Detector.WalkStep | code_analyzer.py:114-177 | the walk state after a node is the state before it, updated by that node alone |
| Detector.BindAt | code_analyzer.py:128 | binding a list of names keeps the other keys and maps each listed name to the context |
| Detector.AssignOrderKeys | code_analyzer.py:140 | the key order lists exactly the keys of `assigned` |
| Detector.AppendNewElements | code_analyzer.py:140 | appending new keys gives exactly the old keys plus the new names |
| Detector.AppendNewIsFirstBy | code_analyzer.py:140 | appending unseen names to a deduplicated order equals deduplicating the concatenation |
| Detector.AssignOrderIsFirstAssignment | code_analyzer.py:137-140 | the key order of `assigned` is the assignment targets in walk order, each at its first assignment |
| Detector.UnusedVariableOrder | code_analyzer.py:137-194 | the unused-variable issues of the detector's output, in order, are exactly the post-pass reports over the assignment order, and that order is the targets at their first assignment |
| Detector.WalkIssuesNotUnused | code_analyzer.py:114-177 | the walk loop never reports an unused variable |
| Detector.UnusedReportsDistinct | code_analyzer.py:179-186 | the post-pass reports are all unused-variable issues with pairwise different dedup keys |
| Detector.AssignOrderDistinct | code_analyzer.py:137-140 | the key order of `assigned` holds no name twice |
| Detector.DedupKeepsFresh | code_analyzer.py:188-194 | dedup keeps every unused-variable report, in order, when their keys are fresh and the walk reports none |
| Detector.UnusedIssuesDistinct | code_analyzer.py:179-186 | distinct assigned names give reports with distinct dedup keys |
| Sequences.FirstByAppendFresh | code_analyzer.py:188-194 | appending items whose keys are all new keeps each of them after the earlier survivors |
| Detector.LastAssignContextMeaning | code_analyzer.py:140 | the context stored for a name is the function current at the name's last assignment |
| Detector.LastAssignExtends | code_analyzer.py:140 | a node that does not assign `v` keeps the last assignment of `v` where it was |
| Detector.ShortNameIssuesMembers | code_analyzer.py:127-147 | a short-name issue is reported exactly for each name shorter than 3 characters |
| Detector.NodeIssuesMembers | code_analyzer.py:115-177 | what a node appends is exactly what the per-node rules say it emits |
| Detector.WalkIssuesMembers | code_analyzer.py:114-177 | an issue is in the raw walk list exactly when some walked node emits it under the function current at that node |
| Detector.EmittedSplit | code_analyzer.py:114-177 | a node of a walk emits an issue exactly when a node of the prefix emits it or the last node does |
| Detector.AssignedMeaning | code_analyzer.py:137-140 | a name is a key of `assigned` exactly when some `Assign` targets it; its value is the context of its last assignment |
| Detector.UsedMeaning | code_analyzer.py:149-150 | a name is in `used` exactly when some node loads it |
| Detector.ParametersMeaning | code_analyzer.py:127-128 | a name is a key of `parameters` exactly when it is a positional parameter of some function |
| Detector.UnusedIssuesMembers | code_analyzer.py:179-186 | the post-pass reports exactly the assigned names that are neither used nor parameters, with their stored context, as WARNING |
| Detector.RawIssuesMembers | code_analyzer.py:114-186 | a raw issue is exactly a walk emission or an unused-variable report |
| Detector.RawIssuesLevels | code_analyzer.py:119-185 | every raw issue carries its type's fixed level: CRITICAL for empty except, WARNING for too many parameters, magic numbers and unused variables, INFO otherwise |
| Detector.DetectedExactly | code_analyzer.py:101-196 | deduplication loses no issue: an issue is returned exactly when some node emits it or it is an unused-variable report |
| Detector.FunctionDefRules | code_analyzer.py:115-135 | for every function definition: a name shorter than 4 gives "Poor function name"/INFO, no docstring gives "Missing docstring"/INFO, more than 4 parameters give "Too many parameters"/WARNING, each parameter shorter than 3 gives "Poor parameter name"/INFO, all with that function as context |
| Detector.EmittedDetected | code_analyzer.py:114-196 | every emission of the walk is in the returned list |
| Detector.UnusedVariableExactly | code_analyzer.py:137-186 | an "Unused variable" issue is returned for `v` exactly when `v` is an assignment target, never loaded and never a parameter |
| Detector.UnusedVariableSound | code_analyzer.py:179-186 | every returned "Unused variable" issue is a WARNING for an unused name carrying the context of its last assignment |
| Detector.EmitsNoUnused | code_analyzer.py:115-177 | no walk rule emits an "Unused variable" issue |
| Sequences.FirstBy | code_analyzer.py:188-194 | the deduplicated list is no longer than its input, keeps only input elements, and has pairwise different keys |
| Sequences.FirstByIsSubsequence | code_analyzer.py:188-194 | the deduplicated list is an order-preserving subsequence of the raw list |
| Sequences.FirstByKeepsFirsts | code_analyzer.py:188-194 | the first occurrence of every key is kept |
| Sequences.FirstByOnlyFirsts | code_analyzer.py:188-194 | every kept element is the first occurrence of its key |
| Sequences.FirstByCoversKeys | code_analyzer.py:188-194 | every raw key is represented in the result |
| Sequences.FirstIndexOfKey | code_analyzer.py:188-194 | every element's key has a first occurrence at or before it |
| Sequences.FirstBySameElements | code_analyzer.py:188-194 | when equal keys mean equal elements, the result has exactly the raw elements |
| Issues.TypeNamesDistinct | code_analyzer.py:107-182 | the ten issue-type strings are pairwise different, so comparing them is comparing issue types |
| Structure.ExtractStructure | code_analyzer.py:61-90 | the loop returns the imports, function names and class names in walk order, and the loop and `if` counts, of the whole walk |
| Structure.Tally | code_analyzer.py:71-88 | one node appends its imports, function or class name, or adds one to the loop or conditional count |
| Structure.AddImports | code_analyzer.py:72-73 | `import a, b` appends each name |
| Structure.StructureStep | code_analyzer.py:70-88 | the structure of a longer walk is the shorter walk's structure updated by the new node |
| Structure.Count | code_analyzer.py:84-97 | a count never exceeds the number of nodes |
| Structure.CyclomaticComplexity | code_analyzer.py:93-98 | the loop returns one plus the number of `if`, `for`, `while`, `try` and boolean-operator nodes |
| Structure.CountAppend | code_analyzer.py:84-97 | counts add up over concatenated walks |
| Structure.CollectAppend | code_analyzer.py:71-82 | collected lists concatenate over concatenated walks |
| Structure.StructureOfAppend | code_analyzer.py:61-90 | every field of the structure of two concatenated walks combines the two walks' fields |
| Structure.CollectMembers | code_analyzer.py:71-82 | a value is collected exactly when some node contributes it |
| Structure.CollectCounts | code_analyzer.py:78-82 | a list that gets one entry per matching node has length equal to the count of those nodes |
| Structure.DefinitionsListed | code_analyzer.py:78-82 | one function name per `FunctionDef` and one class name per `ClassDef`; a name is listed exactly when such a node has it |
| Structure.ImportsListed | code_analyzer.py:71-76 | a module is in `imports` exactly when an `import` names it or a `from` import names it |
| Structure.BranchCount | code_analyzer.py:96 | the branch count is the sum of the loop, `if`, `try` and boolean-operator counts |
| Structure.ComplexityDecomposes | code_analyzer.py:61-98 | the AST complexity is one plus loops plus conditionals plus `try` and boolean-operator nodes, and lies between `1 + loops + conditionals` and `1 + |nodes|` |
| Metrics.AnalyzeMetrics | code_analyzer.py:351-389 | returns `Analyze(m)`: the failure tuple for a failed measurement, otherwise the average, maintainability, score, grade and warnings of the blocks |
| Metrics.ComplexityPenalty | code_analyzer.py:372-375 | the complexity penalty is 0, 10 or 20 |
| Metrics.MaintainabilityPenalty | code_analyzer.py:377-380 | the maintainability penalty is 0, 10 or 20 |
| Metrics.ScoreBands | code_analyzer.py:352-387 | on failure, score 0, grade `Error`, no warnings; on success, score is 100 minus the two penalties, a multiple of 10 in [60, 100], and the grade is never `Poor` or `Error` |
| Metrics.GradeMonotone | code_analyzer.py:371-387 | a higher score never gives a worse grade; a higher average or lower maintainability never raises the score |
| Metrics.ScoreExamples | code_analyzer.py:361-387 | one block of complexity 12 with maintainability 50 gives 60, `Moderate` and one CRITICAL warning; blocks 2 and 4 with maintainability 90 give average 3, 100 and `Excellent` |
| Metrics.WarningsMembers | code_analyzer.py:361-367 | a warning is present exactly for each block of complexity above 5, with that block's text |
| Metrics.WarningsCount | code_analyzer.py:361-367 | one warning per block above 5; the warnings starting with `CRITICAL` are exactly as many as the blocks above 10 |
| Metrics.WarningTextPrefix | code_analyzer.py:364-367 | a warning starts with `CRITICAL` exactly when its block's complexity is above 10 |
| Metrics.AverageWithin | code_analyzer.py:369 | with at least one block, the average lies between the smallest and largest complexity bounds |
| Metrics.TotalWithin | code_analyzer.py:361-362 | the total lies between `lo * n` and `hi * n` when every complexity lies in `[lo, hi]` |
| Metrics.NoWarningsNoPenalty | code_analyzer.py:361-375 | no warnings means every block is at most 5, so the complexity penalty is 0 |
| Metrics.TotalAtMost | code_analyzer.py:361-362 | blocks each at most `hi` add up to at most `hi` times their number |
| Feedback.ParseResponse | code_analyzer.py:236-244 | the loop returns the cleaned, non-empty lines of the stripped response, in order |
| Feedback.SuggestionsShape | code_analyzer.py:238-243 | at most one suggestion per line, each non-empty with no leading or trailing whitespace |
| Feedback.LineSuggestionShape | code_analyzer.py:239-243 | one line gives at most one suggestion, non-empty and trimmed |
| Feedback.ParseShape | code_analyzer.py:236-244 | every suggestion is non-empty and trimmed; there are at most one more suggestions than newlines in the response |
| Feedback.CleanLead | code_analyzer.py:241 | for a line whose only whitespace is spaces, the cleaned text is empty or starts with a character outside `0123456789.-) ` |
| Feedback.SuggestionsLead | code_analyzer.py:238-243 | for lines whose only whitespace is spaces, no suggestion starts with an enumerator character |
| Feedback.ParseLead | code_analyzer.py:236-244 | for a response whose only whitespace is spaces and newlines, no suggestion starts with an enumerator character |
| Feedback.ParseTabExample | code_analyzer.py:236-244 | the response `"1.\t2. x"` parses to `["2. x"]`, a suggestion that starts with a digit |
| Feedback.TabLine | code_analyzer.py:239-241 | that line is unchanged by `strip()` and cleans to `"2. x"` |
| Feedback.TabLineEnumeration | code_analyzer.py:241 | `lstrip("0123456789.-) ")` of that line stops at the tab |
| Feedback.TabLineRest | code_analyzer.py:241 | the following `strip()` removes the tab |
| Feedback.NatText | code_analyzer.py:208-214 | a numeric issue detail is written as a non-empty string of digits; this case of the detail type is never printed, since only magic-number issues carry a number and their message (line 208) shows no detail |
| Feedback.Templated | code_analyzer.py:203-214 | the selected issues all have one of the six templates |
| Feedback.RuleBasedFeedback | code_analyzer.py:198-215 | the loop returns one template per templated issue, in issue order |
| Feedback.RuleFeedbackEntries | code_analyzer.py:198-215 | exactly one entry per issue of the six templated types, in issue order, each its template; the list is empty exactly when no issue has a template |
| Feedback.Engines | code_analyzer.py:302-312 | OpenRouter is tried exactly when its stripped key is non-empty, Gemini likewise, Ollama always, always in the order OpenRouter, Ollama, Gemini |
| Feedback.Outcomes | code_analyzer.py:314-318 | one outcome per engine |
| Feedback.OutcomeAt | code_analyzer.py:314-318 | the `j`-th outcome is the `j`-th engine's answer |
| Feedback.Calls | code_analyzer.py:314-321 | the number of engines called never exceeds the number of engines |
| Feedback.GenerateFeedback | code_analyzer.py:296-326 | no issues give exactly the no-issues message and no engine is called; otherwise the first non-empty parsed engine answer, else the rule-based list, with the engines called up to and including the first success |
| Feedback.TryEngines | code_analyzer.py:314-326 | the engine loop returns the resolved feedback and calls exactly the engines up to the first non-empty answer |
| Feedback.ResolveStep | code_analyzer.py:318-321 | a non-empty answer ends the resolution after one call; an empty one passes on to the next engine |
| Feedback.FirstSuccessDecides | code_analyzer.py:314-321 | when engine `k` is the first with a non-empty answer, the feedback is that answer and `k + 1` engines are called |
| Feedback.AllFailFallsBack | code_analyzer.py:314-326 | when every engine fails, all are called and the rule-based list is returned |
| Feedback.LaterEnginesIrrelevant | code_analyzer.py:319-321 | engines after a successful one change neither the feedback nor the calls |
| Feedback.FeedbackSource | code_analyzer.py:296-326 | with issues, the feedback is the rule-based list or the parsed text of an engine that answered, and then every entry is trimmed |
| Feedback.ResolveIsSome | code_analyzer.py:314-326 | the feedback is the fallback or some non-empty outcome |
| Feedback.CallOpenRouter | code_analyzer.py:257-281 | the retry loop returns the result and back-off pauses `OpenRouterFrom(respond, 0)` |
| Feedback.OpenRouterStep | code_analyzer.py:272-280 | a 429 waits `10 * (attempt + 1)` seconds and retries; a 200 with message content returns it; any other status, a request error, or a 200 without content makes the engine fail |
| Feedback.OpenRouterFromMeaning | code_analyzer.py:259-281 | at most three pauses of 10, 20, 30 seconds; text comes back exactly when an attempt answers after rate limits only, and it is that attempt's content |
| Feedback.OpenRouterInFeedback | code_analyzer.py:257-323 | with its key set, OpenRouter is tried first; an attempt that answers after rate limits only, with text that parses to suggestions, decides the feedback with no other engine called; when no attempt answers, the later engines decide |
| Feedback.RateLimitedThrice | code_analyzer.py:259-281 | three 429 replies raise after pauses of 10, 20 and 30 seconds |
| AutoFix.AutoFixCode | code_analyzer.py:328-348 | the loop returns `AutoFix(code)`: the kept lines, each rewritten, joined with newlines |
| AutoFix.FixCodeLine | code_analyzer.py:333-346 | a line is kept exactly when it is not a debug print, and a kept line becomes its rewrite |
| AutoFix.FixLinesStep | code_analyzer.py:332-346 | each input line adds its rewrite, or nothing when it is a debug print |
| AutoFix.KeepMapMembers | code_analyzer.py:332-346 | one output line per kept line, never more than the input; an output line is exactly the rewrite of some kept line |
| AutoFix.KeepMapAll | code_analyzer.py:332-346 | when no line is dropped, output line `k` is the rewrite of input line `k` |
| AutoFix.FixLineShape | code_analyzer.py:341-346 | a newline-free line, rewritten, has no newline and does not end in whitespace |
| AutoFix.PlainLineKept | code_analyzer.py:335-346 | a line without `print(` is kept and only right-stripped |
| AutoFix.FirstRewriteIsNoOp | code_analyzer.py:342 | replacing `print(` by itself changes nothing |
| AutoFix.PrefixNoPrint | code_analyzer.py:341 | a prefix of a line without `print(` has no `print(` either |
| AutoFix.PlusPadded | code_analyzer.py:341-346 | `print(x+y)` becomes `print(x + y)` |
| AutoFix.SumRewrites | code_analyzer.py:341-344 | the three replacements turn `print(x+y)` into `print(x + y)` |
| AutoFix.PlusStep | code_analyzer.py:344 | the `+` padding of `print(x+y)` |
| AutoFix.PlusPaddingGrows | code_analyzer.py:341-346 | a second pass turns `print(x + y)` into `print(x  +  y)`, so auto-fix is not idempotent |
| AutoFix.FixPrintLine | code_analyzer.py:341-346 | for a line with `print(`, a replacement result that does not end in whitespace is the rewrite |
| AutoFix.NoSpaceBeforeClose | code_analyzer.py:343 | a piece not ending in a space, followed by `)`, has no ` )` |
| AutoFix.FixLinesShape | code_analyzer.py:332-346 | the output lines are exactly the rewrites of the kept lines, at most one per input line, none ending in whitespace |
| AutoFix.AutoFixLines | code_analyzer.py:329-348 | when at least one line is kept, splitting the fixed code on newlines gives back the rewritten lines (code made only of debug prints fixes to `""`, which splits to `[""]`) |
| AutoFix.AutoFixShape | code_analyzer.py:328-348 | the fixed code has at most as many lines as the input, and none ends in whitespace |
| AutoFix.AutoFixWithoutPrint | code_analyzer.py:328-348 | on code with no `print(`, fixing the fixed code again changes nothing |
| AutoFix.FixLinesWithoutPrint | code_analyzer.py:341-346 | lines without `print(` are each only right-stripped, and then fixing again changes nothing |
| Scan.ScanFiles | code_analyzer.py:471-565 | no files is a crash; otherwise exit status 1 exactly when some row has grade `Error` or warnings mentioning `CRITICAL`, and 0 otherwise |
| Scan.WarningMentionsCritical | code_analyzer.py:364-367 | a warning mentions `CRITICAL` exactly when its block is above 10 or its name mentions `CRITICAL` |
| Scan.HighlyComplexMentions | code_analyzer.py:365 | a high-complexity warning mentions `CRITICAL` |
| Scan.ModeratelyComplexMentions | code_analyzer.py:367 | a moderate-complexity warning mentions `CRITICAL` exactly when the function name does |
| Scan.MentionsWithin | code_analyzer.py:365-367 | a word that cannot reach into the fixed text around a name occurs exactly when the name holds it |
| Scan.WarningsMentionCritical | code_analyzer.py:522 | the warnings joined with `"; "` mention `CRITICAL` exactly when one warning does |
| Scan.CriticalExactly | code_analyzer.py:484-559 | a row blocks the commit exactly when the file does not parse, its measurement failed, or a block above 5 is above 10 or has `CRITICAL` in its name |
| Scan.HighComplexityBlocks | code_analyzer.py:364-365 | a block above 10 in any parsed file blocks the commit |
| Scan.CalmFilesPass | code_analyzer.py:552-565 | parsed and measured files whose blocks are all at most 5 let the commit through |
| Text.LStrip | code_analyzer.py:238-241 | the leading half of `strip()` shortens and leaves no leading whitespace |
| Text.RStrip | code_analyzer.py:346 | `rstrip()` shortens and leaves no trailing whitespace |
| Text.Strip | code_analyzer.py:238-241 | `strip()` leaves neither leading nor trailing whitespace |
| Text.LStripSuffix | code_analyzer.py:238-241 | the leading half of `strip()` removes only a whitespace prefix |
| Text.RStripPrefix | code_analyzer.py:346 | `rstrip()` removes only a whitespace suffix |
| Text.StripIsBoth | code_analyzer.py:238-241 | `strip()` is `lstrip()` followed by `rstrip()` |
| Text.StripIsSlice | code_analyzer.py:238 | the stripped text is a piece of the original |
| Text.StripEmpty | code_analyzer.py:240 | a line strips to empty exactly when it is all whitespace |
| Text.LStripChars | code_analyzer.py:241 | `lstrip(chars)` leaves no leading character of `chars` |
| Text.LStripCharsSuffix | code_analyzer.py:241 | `lstrip(chars)` removes only a prefix of characters of `chars` |
| Text.ContainsAt | code_analyzer.py:336-341 | `p in s` means `p` occurs at some index of `s` |
| Text.ReplaceByItself | code_analyzer.py:342 | replacing a pattern by itself is the identity |
| Text.ReplaceAbsent | code_analyzer.py:343 | replacing an absent pattern is the identity |
| Text.ReplaceSingle | code_analyzer.py:344 | replacing the single occurrence of a character puts the substitute in its place |
| Text.Split | code_analyzer.py:238 | `split` gives at least one piece, none holding the separator |
| Text.JoinSplit | code_analyzer.py:329-348 | joining the pieces of a split with the separator gives the original text |
| Text.SplitJoin | code_analyzer.py:329-348 | splitting a join of at least one separator-free piece gives the pieces back |
| Text.SplitCount | code_analyzer.py:238 | a split gives one more piece than there are separators |
| Text.JoinContains | code_analyzer.py:522-558 | a word that does not share a character with the separator occurs in a join exactly when it occurs in some piece |
| Text.Lower | code_analyzer.py:336-337 | `lower()` keeps the length |

## Left out

- `ast.parse`, `ast.walk` and `ast.get_docstring` are Python's own parser. The model takes the walked node sequence, or a parse-failure message, as input.
- `radon`'s `cc_visit` and `mi_visit` are a foreign library. The model takes the per-block complexities and the maintainability index as input, with `Failed` for an exception.
- `Metrics.AnalyzeMetrics`: does not model `round(..., 2)`, because rounding is float presentation; it returns the exact average and index.
- Float constants are not modelled. A numeric constant is an integer, and a boolean constant appears as 0 or 1, so it is never a magic number.
- `_call_gemini`, `_call_ollama` and the HTTP request, JSON decoding, error-message formatting and `time.sleep` of `_call_openrouter` are network and clock effects. Engine results and HTTP replies are parameters, and the pauses are returned as a list.
- `os.getenv` is replaced by the environment values passed as strings.
- `_build_prompt` only formats text for the engines. Engine calls are abstract, so the prompt is not modelled.
- `Feedback.TryEngines`: the engine loop applies one function that calls an engine and parses its answer. It does not call `Feedback.ParseResponse`, which is proved equal to the same parse on its own.
- Printing (`[INFO]`/`[WARN]` lines, `print(df)`) is output only and is left out.
- `generate_diff` is a thin wrapper over `difflib` and is not part of this model.
- `load_config`, `get_python_files`, `read_file`, `create_git_hook`, pandas, and the CSV and HTML report writing are file-system and library plumbing.
- `Scan.ScanFiles`: reads only the grade and warnings columns of each row. The other columns, `project_score` (a mean rounded to two places), and the other `run_cli` commands and their `argparse` dispatch are left out.
- `Text.Lower`: lower-cases ASCII letters only, because Unicode case mapping is not available. The words compared against, `debug` and `test`, are ASCII.
- `Feedback.OpenRouterFrom`: a 200 reply whose content is null makes `_call_openrouter` return `None`, and the engine fails only when `_parse_ai_response` raises on it. The model ends that reply as `Fail` at once, with the same engine outcome.
- `Text.IsSpace` follows CPython's whitespace set for `str.strip()` with no arguments.
- `Feedback.ParseLead`: weaker than "no suggestion starts with an enumerator character", because that property fails for responses containing tabs or other non-space whitespace (`Feedback.ParseTabExample`).
- `frontend.py`, `ai_code_review_core.py`, `cli_runner.py` and `git_hook.py` are a user interface and I/O scripts, and are not part of this model.
