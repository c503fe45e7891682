# GapSmith: verified model of the gcov analysis and the saturating-division fixtures

GapSmith drives GCC towards uncovered code. It repeats one loop:

1. It picks a source file of the compiler and, from that file's `.gcov` report, the largest block of never-executed lines.
2. It asks a model to summarize the block as requirements: a coverage goal, compile options and basic blocks.
3. It has test programs generated from a prompt, compiles them and collects coverage again.
4. It checks whether the block became covered.

The loop counts each file's consecutive failures and hands the set of files with ten or more to the target selector. Every failure is stored as a "bad case" that later prompts quote back.

This project models, in Dafny, the text processing of that loop:

* Reading gcov reports (`main.py`):
  * `parse_gcov_file`;
  * `check_lines_coverage`;
  * `format_uncovered_block`;
  * `compute_coverage_improvements`.
* Reading the model's replies (`main.py`):
  * `clean_compile_options`;
  * the clean-up and ordering at the end of `extract_compile_commands`;
  * `parse_requirements`.
* Finding uncovered blocks (`algorithm/uncovered_analyzer.py`):
  * `UncoveredBlockAnalyzer` with its line classifiers;
  * `parse`, `_collect_context` and `_save_block`.
* Storing and printing bad cases (`algorithm/find_bad.py`): `normalize_target_name`, `format_output` and `run`.
* The bookkeeping of `main()`:
  * the per-file count of consecutive failures and the exclusion threshold;
  * the choice of the target block;
  * the fallbacks for the prompt settings;
  * the bad-case record that is saved.
* The saturating-division helpers of the generated C test programs in `programs/batch_20260226_202236/`:
  * `iter_0045.c` and `iter_0007.c`;
  * `iter_0023.c` (with `select_value`);
  * `iter_0024.c` (`process_saturating_div`, in place on arrays);
  * `iter_0035.c` (the fallback `*_by_one` loops and the index bookkeeping of `main`);
  * `iter_0043.c` (`satdiv_variants`).

The model and its proof techniques:

* Regular expressions are written out as deterministic scanners. Where a pattern can backtrack, the scanner takes the path that Python's `re` takes.
* C integer types are subset types of `int`. C's truncating `/` and `%` and the conversions to and from `uint32_t` are written out explicitly in `c_int.dfy`.
* Most loops in the source are `method`s with loop invariants, proved against specification functions. The loop over the section matches in `parse_requirements` (main.py:302-313) is the recursive fold `Requirements.Read` instead.
* Objects updated in place are classes: `UncoveredBlockAnalyzer` and the failure counter.
* Properties that relate several calls are lemmas.

| file | module | models |
|---|---|---|
| `wrappers.dfy` | `Wrappers` | `Option` |
| `text.dfy` | `Text` | Python `str` operations and `re` character classes |
| `c_int.dfy` | `CInt` | `int32_t`/`uint32_t`, C division and conversions |
| `sorted.dfy`, `stable_sort.dfy` | `Sorted`, `StableSort` | `sorted(set(...))`, stable `list.sort(key=...)` |
| `gcov_lines.dfy` | `GcovLines` | the gcov line patterns and the printed entry format |
| `gcov_parse.dfy` | `GcovParse` | `parse_gcov_file` |
| `gcov_targets.dfy` | `GcovTargets` | the `#####` target pattern, `format_uncovered_block` |
| `coverage_check.dfy` | `CoverageCheck` | `check_lines_coverage` |
| `coverage_improvements.dfy` | `CoverageImprovements` | `compute_coverage_improvements` |
| `compile_options.dfy` | `CompileOptions` | `clean_compile_options`, ordering in `extract_compile_commands` |
| `requirements.dfy` | `Requirements` | `parse_requirements` |
| `uncovered_analyzer.dfy` | `UncoveredAnalyzer` | `UncoveredBlockAnalyzer` |
| `find_bad.dfy` | `FindBad` | `BadCaseFinder` |
| `pipeline.dfy` | `Pipeline` | the bookkeeping of `main()` |
| `fixture_*.dfy` | `Fixture0045` … `Fixture0043` | the C helpers |

## Model

| member | source | states |
|---|---|---|
| GcovLines.MatchLine | main.py:227 | a match has a count made of `#`, `-` and digits, and source text without a line feed |
| GcovLines.MatchFormatted | main.py:320-323 | an entry printed as `{count:>5}: {line:5d}:{code}` reads back through the gcov pattern as the same count, line number and code |
| GcovLines.StripCount | main.py:234 | stripping a matched count changes nothing |
| GcovParse.ParseGcovFile | main.py:224-237 | a missing file gives `{}`; otherwise the loop builds the dictionary of every matching line |
| GcovParse.ParsedOnlyMatched | main.py:230-234 | a line number is in the dictionary only if some line of the file matched with it |
| GcovParse.ParsedLastWins | main.py:230-234 | the entry of a line number is the stripped count and code of the last line that matched with it |
| GcovParse.ParsePrinted | main.py:227-234 | reading a printed entry sets exactly that entry |
| GcovTargets.TargetAtLayout | main.py:187 | the target pattern on a printed `#####` entry captures its line number |
| GcovTargets.NoTargetAtLayout | main.py:187 | a printed entry whose count does not start with `#` is not a target |
| GcovTargets.FindTargetsOfBlock | main.py:187-188 | `findall` over a printed uncovered block gives the line numbers of its `#####` entries, in block order |
| Sorted.SortedUnique | main.py:189 | `sorted(set(xs))` is strictly ascending and has exactly the elements of `xs` |
| Sorted.SortedUniqueSameElements | main.py:189 | the target list depends only on the set of numbers found |
| CoverageCheck.TargetLines | main.py:187-189 | the target lines are ascending, without repeats, and are exactly the numbers the pattern finds |
| CoverageCheck.CheckLinesCoverage | main.py:171-221 | the line-by-line loop, with its early return, gives the specification's verdict: an error for a missing file, `(False, [])` without targets, covered iff some line covers a target |
| CoverageCheck.TargetsOfPrintedBlock | main.py:187-189 | for a block printed by `format_uncovered_block`, the targets are exactly its `#####` line numbers, ascending |
| CoverageCheck.NoUncoveredEntries | main.py:191-192 | a block without `#####` entries gives `(False, [])` whatever the gcov file holds |
| CoverageCheck.CoversAnySameElements | main.py:194 | only the set of targets matters to the verdict |
| CoverageCheck.CoveredIffEntryExecuted | main.py:201-218 | for a printed block with a `#####` entry, covered iff some gcov line has one of its line numbers and a digit count |
| CoverageImprovements.TargetBasename | main.py:259 | the target's base name, with backslashes read as slashes, holds no `/` |
| CoverageImprovements.NewlyCoveredLines | main.py:267-279 | the loop over the new snapshot yields the newly covered lines in ascending order |
| CoverageImprovements.ComputeCoverageImprovements | main.py:248-285 | the loop over files gives the other improved files in snapshot order and the target's `ln:code` lines joined by newlines |
| CoverageImprovements.OtherFilesIff | main.py:275-282 | a name is listed as another improved file iff a non-target file with that base name gained a covered line |
| CoverageImprovements.TargetPartsOnly | main.py:278-280 | the target's text lists exactly its newly covered lines, ascending, as `ln:code` |
| CoverageImprovements.NoTargetParts | main.py:284 | without a target entry the in-file text is empty |
| CoverageImprovements.UnchangedNoImprovement | main.py:272 | identical snapshots show no improvement |
| CoverageImprovements.PrintedLineImproved | main.py:269-273 | a line printed `#####` before and with a count after is newly covered, with the old code unless that is empty |
| CoverageImprovements.MissingLineImproved | main.py:269-273 | a line missing from the old file and counted in the new one is newly covered, with the new code |
| CompileOptions.RemoveGroupsChars | main.py:19-21 | removing groups adds no character but spaces |
| CompileOptions.NoGroupLeft | main.py:19-21 | after the removal no `(` (or `[`) is followed by its closing bracket |
| CompileOptions.RemoveGroupsAbsent | main.py:19-21 | a text without the opening bracket is unchanged |
| CompileOptions.ExampleEndMeaning | main.py:23 | an `e.g.` phrase is removed iff it starts at a word boundary and has a non-comma character to take; it ends at a comma, a newline or the end, with no comma inside |
| CompileOptions.StripExamplesKeepsCommas | main.py:23 | removing `e.g.` phrases keeps every comma |
| CompileOptions.StripExamplesAbsent | main.py:23 | a text without `e.g.` is unchanged |
| CompileOptions.FlagsAreTokens | main.py:25 | every flag found is a dash, a letter, then an optimisation level or flag characters |
| CompileOptions.FlagsOfJoin | main.py:25-26 | flags joined by spaces read back as the same flags |
| CompileOptions.CleanCompileOptionsMeaning | main.py:10-26 | empty input gives `""`; the result reads back as exactly the flags of the text without its remarks; it is `""` only when there are none |
| CompileOptions.NormalizeShape | main.py:97 | a normalised option has single spaces only and none at either end |
| CompileOptions.NormalizedMeaning | main.py:95-99 | the kept options are exactly the non-empty normalisations of the found ones: every kept option is one, and every found option with a non-empty normalisation is kept |
| CompileOptions.NormalizeOptions | main.py:95-99 | the normalising loop gives the normalised non-empty options in order |
| CompileOptions.RankLeOrder | main.py:101-103 | the key `(-has_o, -len)` is a total preorder |
| CompileOptions.FinishCompileCommands | main.py:93-107 | the result is the normalised options, sorted by the key when there are several |
| CompileOptions.OrderMeaning | main.py:100-107 | the result is a permutation sorted by the key; its first option is the earliest best-ranked one |
| StableSort.SortSorted | main.py:104 | `list.sort(key=...)` gives the elements in key order |
| StableSort.SortHead | main.py:583-584 | the first sorted element is the earliest with the least key |
| Requirements.NextHeader | main.py:299 | the lazy content stops at the first place where the lookahead `\n\s*\[` or the end holds |
| Requirements.SectionAtMeaning | main.py:298-301 | a section starts iff `[` opens a non-empty name closed by `]`; its content ends where the lookahead holds (the first such place, once fixed) |
| Requirements.ReadGoal | main.py:307-308 | the goal is the content of the last goal section, `""` without one |
| Requirements.ReadCompile | main.py:309-311 | the options are those of the last compile-options section, cleaned, or `-O2` when cleaning leaves nothing |
| Requirements.ReadCompileDefault | main.py:293-311 | without a compile-options section the options are `-O2`, and they are never empty |
| Requirements.ReadBlocks | main.py:312-313 | every basic-block section is kept in order |
| Requirements.ParseRequirementsMeaning | main.py:288-317 | with the section pattern corrected: an empty summary gives the defaults; the options are never empty; the target block is the block contents joined by a blank line |
| Requirements.ParseRequirementsAsWrittenMeaning | main.py:288-317 | as written: an empty summary gives the defaults; the options are never empty; the target block is the block contents of the sections found, joined by a blank line |
| Requirements.EmptySectionSwallowsNext | main.py:298-301 | as written, an empty section's content swallows the next header; with the fix the two sections are read apart |
| Requirements.EmptyGoalExample | main.py:298-316 | on `[Coverage Goal]\n[Basic Block 1] - loop`, the goal becomes the block header as written, and `""` with target block `loop` once fixed |
| UncoveredAnalyzer.ClassesDisjoint | algorithm/uncovered_analyzer.py:37-61 | covered, uncovered-executable and neutral lines are disjoint, and a comment is never code |
| UncoveredAnalyzer.PureCommentChars | algorithm/uncovered_analyzer.py:24-29 | a pure comment is a trimmed text starting with `//`, `/*` or `*` |
| UncoveredAnalyzer.EntriesOfPrinted | algorithm/uncovered_analyzer.py:18-20 | entries printed in gcov form read back as the same entries |
| UncoveredAnalyzer.ReadEntries | algorithm/uncovered_analyzer.py:72-82 | the reading loop keeps every matching line as an entry, its count stripped |
| UncoveredAnalyzer.CoveredOnlyCovered | algorithm/uncovered_analyzer.py:122-123 | the context filter keeps only executed code lines of its input |
| UncoveredAnalyzer.ContextBounds | algorithm/uncovered_analyzer.py:114-134 | the context is at most `limit` executed lines from before the block, then at most `limit` from after it |
| UncoveredAnalyzer.ContextNoneIff | algorithm/uncovered_analyzer.py:142-145 | the context is `None` iff the limit is not positive or no executed code line lies on either side |
| UncoveredAnalyzer.CollectBefore | algorithm/uncovered_analyzer.py:118-125 | the backward walk with its reversal gives the last `limit` executed lines before the block, in file order |
| UncoveredAnalyzer.CollectAfter | algorithm/uncovered_analyzer.py:126-132 | the forward walk gives the first `limit` executed lines after the block |
| UncoveredAnalyzer.CollectContext | algorithm/uncovered_analyzer.py:114-134 | `_collect_context` returns the before part followed by the after part |
| UncoveredAnalyzer.SaveBlock | algorithm/uncovered_analyzer.py:136-151 | the block is appended with its context (`None` when empty), lines and executable count |
| UncoveredAnalyzer.ScanBlocks | algorithm/uncovered_analyzer.py:84-112 | the scan loop gives the blocks of the specification |
| UncoveredAnalyzer.FinishShape | algorithm/uncovered_analyzer.py:104-112 | the saved blocks are disjoint runs in file order that cover every never-executed code line |
| UncoveredAnalyzer.BlocksShape | algorithm/uncovered_analyzer.py:84-112 | each block is a maximal run that starts at a `#####` code line and holds such lines and `-` lines; its size counts only the `#####` code lines; its context is that of the run |
| UncoveredAnalyzer.UncoveredBlockAnalyzer.constructor | algorithm/uncovered_analyzer.py:6-22 | a new analyzer holds its file and limit, and no entries or blocks |
| UncoveredAnalyzer.UncoveredBlockAnalyzer.Parse | algorithm/uncovered_analyzer.py:63-112 | a missing file changes nothing and is reported; otherwise the entries and blocks are those of the file |
| FindBad.NormalizedHasNoSeparator | algorithm/find_bad.py:24-32 | a folder name holds neither `/` nor `\` |
| FindBad.NormalizeIdempotent | algorithm/find_bad.py:32 | normalising a folder name again leaves it unchanged |
| FindBad.PlainNameKept | algorithm/find_bad.py:32 | a name without separators is its own folder name |
| FindBad.FormatOutputLayout | algorithm/find_bad.py:65-75 | the output starts with the fixed sentence; the prompt follows it up to a newline; the output ends with the in-file field and the fixed closing sentences |
| FindBad.MissingFieldIsEmpty | algorithm/find_bad.py:65-75 | a missing field prints exactly as an empty one |
| FindBad.OtherFieldsIgnored | algorithm/find_bad.py:55-75 | fields other than the four named ones do not change the output |
| FindBad.Run | algorithm/find_bad.py:34-100 | a missing folder and an empty folder are errors; otherwise some stored case of the folder is printed |
| Pipeline.CountIsFailuresSinceSuccess | main.py:661-667 | a file's count is the number of its failures since its last success |
| Pipeline.ExcludedIff | main.py:559 | a file is excluded iff it failed at least ten times since its last success |
| Pipeline.ExclusionPermanent | main.py:559-560 | when a non-excluded file is targeted, every excluded file stays excluded and only the target can join them |
| Pipeline.FailureTracker.constructor | main.py:529 | the counter starts empty |
| Pipeline.FailureTracker.Record | main.py:661-667 | coverage resets the target's count to 0, a failure adds 1, and the counts stay those of the recorded history |
| Pipeline.FailureTracker.ExcludedFiles | main.py:559 | exactly the files whose count is at least 10 are excluded |
| Pipeline.SelectTargetBlock | main.py:580-584 | no block gives none, otherwise the first block after sorting by size, largest first |
| Pipeline.SelectTargetBlockMeaning | main.py:583-584 | the chosen block is the earliest of the largest blocks |
| Pipeline.SettingsOptionsAreFlags | main.py:597-599 | the options handed on are a non-empty list of flags: the flags of the given options (the parsed ones, or "-O2") without their remarks, or the single flag "-O2" when none is left |
| Pipeline.InitialCompileOptionsMeaning | main.py:509-510 | the initial options are `-O2` when none were found, otherwise a found option ranked first |
| Pipeline.BadCaseRecord | main.py:675-680 | the record keeps the prompt and status, and at most the first 500 characters of the in-file improvements |
| Pipeline.SaveBadCase | main.py:668-674 | the target's folder holds its earlier cases (none if it had no folder) followed by the record; other folders are unchanged |
| Pipeline.SavedCaseFound | main.py:669 | the folder `main()` saves into is the one the finder looks in: a saved case is always found, and the newest is the record |
| Pipeline.BadCasePrintsPrompt | main.py:676 | a printed bad case carries the failed prompt right after the fixed sentence |
| Pipeline.EndIteration | main.py:661-680 | the end of an iteration updates the count and saves a bad case only when the block stayed uncovered |
| Fixture0045.ZeroDivisor | programs/batch_20260226_202236/iter_0045.c:65-78 | both helpers give 0 for a zero divisor |
| Fixture0045.DivByOne | programs/batch_20260226_202236/iter_0045.c:65-78 | dividing by 1 gives the dividend back |
| Fixture0045.SsDivQuotient | programs/batch_20260226_202236/iter_0045.c:65-71 | the signed helper gives the truncated quotient, except that `INT32_MIN / -1` saturates |
| Fixture0045.UsDivBound | programs/batch_20260226_202236/iter_0045.c:73-78 | the unsigned helper is plain division, never above the dividend |
| Fixture0007.ZeroDivisor | programs/batch_20260226_202236/iter_0007.c:5-18 | a zero divisor saturates with the dividend's sign; 0 stays 0 |
| Fixture0007.Quotient | programs/batch_20260226_202236/iter_0007.c:5-11 | a non-zero divisor gives the clamped truncated quotient; only `INT32_MIN / -1` is clamped |
| Fixture0007.UnsignedQuotient | programs/batch_20260226_202236/iter_0007.c:13-18 | a non-zero divisor gives unsigned division |
| Fixture0007.DivByOne | programs/batch_20260226_202236/iter_0007.c:5-18 | dividing by 1 gives the dividend back |
| Fixture0023.ZeroDivisor | programs/batch_20260226_202236/iter_0023.c:49-58 | zero divisor: `INT32_MAX` for a non-negative dividend, otherwise `INT32_MIN`; `UINT32_MAX` unsigned |
| Fixture0023.Quotient | programs/batch_20260226_202236/iter_0023.c:49-53 | the truncated quotient and remainder identity, except `INT32_MIN / -1`, which gives `INT32_MAX` |
| Fixture0023.DivByOne | programs/batch_20260226_202236/iter_0023.c:49-58 | dividing by 1 gives the dividend back; the unsigned quotient never exceeds the dividend |
| Fixture0023.VariantsAgree | programs/batch_20260226_202236/iter_0023.c:49-58 | the three generations of helpers agree on every non-zero divisor |
| Fixture0023.SelectValue | programs/batch_20260226_202236/iter_0023.c:5-21 | `select_value` returns `a` iff `cond > 0`, else `b` |
| Fixture0024.ProcessSaturatingDiv | programs/batch_20260226_202236/iter_0024.c:53-66 | the in-place loop leaves both arrays as the round-by-round specification says, and changes nothing when `n <= 0` |
| Fixture0024.PassFrame | programs/batch_20260226_202236/iter_0024.c:54 | no element at or beyond `n` changes |
| Fixture0024.PassStable | programs/batch_20260226_202236/iter_0024.c:54-64 | later rounds do not touch an element again |
| Fixture0024.PassFirst | programs/batch_20260226_202236/iter_0024.c:55-58 | the first element of each array comes out unchanged |
| Fixture0024.PassValue | programs/batch_20260226_202236/iter_0024.c:61-64 | every later element is its original value divided by the updated previous one, 0 read as 1 |
| Fixture0035.SsDivByOne | programs/batch_20260226_202236/iter_0035.c:72-80 | values of at least 100 are halved at most twice, stopping below 100; others pass through |
| Fixture0035.UsDivByOne | programs/batch_20260226_202236/iter_0035.c:82-87 | the result is at most 1000 and at most `x`; `x` itself when `x <= 1000` |
| Fixture0035.SaturatingDivisionPaths | programs/batch_20260226_202236/iter_0035.c:119-138 | both indices end at 4, every store is in bounds, and the stored values are exact |
| Fixture0035.RoundStep | programs/batch_20260226_202236/iter_0035.c:126-137 | in every round the argument lies where the helper returns it unchanged (`ssdiv_by_one` gets a value in -100..0, `usdiv_by_one` one in 0..1000), and `sval` and `uval` move by `j % 3` as the loop body says |
| Fixture0035.ScheduleLength | programs/batch_20260226_202236/iter_0035.c:99-117 | the number of stores after `n` rounds of the first loop |
| Fixture0035.FillResults | programs/batch_20260226_202236/iter_0035.c:95-117 | with a buffer of `capacity` slots, either every store fits or the first store past the end is reported |
| Fixture0035.StoreRound | programs/batch_20260226_202236/iter_0035.c:100-115 | the stores of one round land at consecutive slots after the earlier ones, or the first store past the end of the buffer is reported |
| Fixture0035.FillResultsAsWritten | programs/batch_20260226_202236/iter_0035.c:95-110 | with `float res[8]`, the ninth store (`res[8]`, round 6) is out of bounds |
| Fixture0035.FillResultsCorrected | programs/batch_20260226_202236/iter_0035.c:95-117 | with 20 slots, every store fits and the buffer holds the whole schedule |
| Fixture0043.BodyKeeps | programs/batch_20260226_202236/iter_0043.c:58-66 | one pass of the loop body leaves the accumulator unchanged |
| Fixture0043.EvenNeverLeaves | programs/batch_20260226_202236/iter_0043.c:57-67 | with an even value and `count == UINT32_MAX`, the wrapping counter never leaves the loop |
| Fixture0043.SatDivVariantsHangs | programs/batch_20260226_202236/iter_0043.c:54-70 | `satdiv_variants(val, UINT32_MAX)` does not return for even `val` |
| Fixture0043.RunAsWrittenReturns | programs/batch_20260226_202236/iter_0043.c:54-70 | every other call returns `val` within `count` iterations |
| Fixture0043.SatDivVariants | programs/batch_20260226_202236/iter_0043.c:54-70 | with a counter that does not wrap, the function returns `val` |

## Left out

- The first five extraction methods of `extract_compile_commands` (main.py:41-91) are not modelled. Their result, a Python set, is a parameter of `CompileOptions.FinishCompileCommands`, taken in whatever order the set yields.
- `CompileOptions.FinishCompileCommands`: the set's iteration order is not modelled. It decides the order among options of equal rank.
- The rest of `main()` (main.py:432-684) is not modelled:
  - API clients and compilation;
  - gcov runs and file and directory I/O;
  - the time budget and printing;
  - target-file selection in `algorithm/sort.py`;
  - the prompt templates `make_summarization_generation_prompt`, `make_program_generate_prompt` and `format_block_for_prompt`.
- `main()` as written cannot reach its loop. main.py:521, 548 and 641 pass `gcov_path=` to `GcovRunner`, but its constructor (algorithm/collect.py:8) has no such parameter. main.py:560 passes `exclude_files=` to `select_next_target`, which has none either (algorithm/sort.py:74-82): it picks from all targets. Both calls raise `TypeError`. `Pipeline` models the loop's bookkeeping as evidently intended, and the excluded set it computes is not shown to keep any file from being chosen.
- The compile-status text of main.py:628-634 is not modelled, because it only wraps compiler messages that are not part of this model.
- File contents are parameters. A gcov file is `Option<seq<string>>` (`None` when it is missing). The bad-case directory is a map from folder name to stored records. JSON encoding and decoding are taken as exact.
- `Pipeline.SaveBadCase` appends the record to the folder. The file name `case{n}.json` with `n` one more than the existing cases is not modelled, so neither is the overwrite that happens when the existing files skip a number.
- `FindBad.Run`: `random.choice` is replaced by the parameter `pick`, taken modulo the number of cases. The printed log lines are not modelled.
- `FindBad.Field`: record values are text. `str()` of non-string JSON values is not modelled.
- Non-`str` arguments are not modelled. They reach the `isinstance` checks of `clean_compile_options` and `parse_requirements`.
- `\d`, `\w`, `\b`, `str.isdigit()` and `str.lower()` are modelled on ASCII only. `\s` and `str.strip()` use Python's full whitespace set.
- Decoding with `errors="replace"` or `errors="ignore"` is not modelled; lines are given as text.
- `UncoveredAnalyzer.UncoveredBlockAnalyzer.Parse`: the `FileNotFoundError` is modelled as the result `false` with the state unchanged.
- `UncoveredAnalyzer.UncoveredBlockAnalyzer.Parse`: the reading and scanning loops, `_collect_context` and `_save_block` are module-level methods over sequence values. `Parse` assigns their results to the analyzer's fields. Appending to the same Python lists in place is not modelled.
- `print_blocks` (printing) is not modelled.
- `Fixture0035.SaturatingDivisionPaths` and `Fixture0035.FillResults` model the `float` results of `res` only as the name of the helper that produced each. The float arithmetic and the `copysign` helpers of every fixture are not modelled.
- The `__ARM_FEATURE_SAT` branches of `iter_0035.c` call intrinsics that are not visible, so they are not modelled.
- The fixtures' `main` functions are not modelled, apart from the index bookkeeping of `iter_0035.c`. They only combine the helpers with float code.
- The other fixtures of the batch are near-duplicates of the modelled helpers or hold only float code, so they are not part of this model.
- `Fixture0043.RunAsWritten` bounds the loop with a fuel parameter, so that a run that does not return can be stated.

## Findings

| source | as written | input that shows it | evidently intended | confidence | as-written member | corrected member |
|---|---|---|---|---|---|---|
| programs/batch_20260226_202236/iter_0043.c:56-67 | `unsigned i` steps by 2 while `acc` is even and wraps from `UINT32_MAX - 1` to 0, so `i < count` holds forever when `count == UINT32_MAX` | `satdiv_variants(0, 4294967295)` (the calls in `main` use `count == 5` and return) | a counter that stops once `count` is reached | not executed; high for the function, the calls in `main` are unaffected | Fixture0043.SatDivVariantsHangs | Fixture0043.SatDivVariants |
| programs/batch_20260226_202236/iter_0035.c:95-117 | `float res[8]`, but the loop stores 20 values; the ninth store, `res[8]` in round 6, is past the end | the program as written: no input is read | a buffer sized for all 20 stores | not executed; high | Fixture0035.FillResultsAsWritten | Fixture0035.FillResultsCorrected |
| main.py:298-301 | after `]`, `\s*` also consumes the newline that the lookahead `(?=\n\s*\[)` needs, so an empty section's content runs on to the end and swallows the next header | `parse_requirements("[Coverage Goal]\n[Basic Block 1] - loop")` gives the goal `"[Basic Block 1] - loop"` and no target block | an empty goal and the target block `loop` | not executed; high | Requirements.EmptySectionSwallowsNext | Requirements.SectionAtMeaning |
