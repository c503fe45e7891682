/** The bookkeeping of the coverage-driven loop in `main()` of `main.py`: the count of
    consecutive failures per target file, the choice of the block to aim at, the settings
    passed on to the program prompt, and the bad case saved when the block stays
    uncovered. */
module Pipeline {
  import opened Wrappers
  import opened Text
  import opened StableSort
  import opened FindBad
  import UA = UncoveredAnalyzer
  import CO = CompileOptions
  import R = Requirements

  // ---------------------------------------------------------------------------------
  // Consecutive failures
  // ---------------------------------------------------------------------------------

  /** A file whose count reaches this joins the set of files the loop hands to the target
      selector to exclude. */
  const FailureThreshold: nat := 10

  /** The outcome of one iteration: the target file and whether its block was covered. */
  type Outcome = (string, bool)

  /** `file_failure_count.get(f, 0)`. */
  function CountOf(counts: map<string, nat>, f: string): nat {
    if f in counts then counts[f] else 0
  }

  /** The counts after the given iterations: a covered block resets its file's count to 0,
      an uncovered one adds 1 to it. */
  function Counts(history: seq<Outcome>): map<string, nat>
    decreases |history|
  {
    if history == [] then map[]
    else
      var prev := Counts(history[..|history| - 1]);
      var (f, covered) := history[|history| - 1];
      prev[f := if covered then 0 else CountOf(prev, f) + 1]
  }

  /** How many of the given iterations aimed at `f` and failed. */
  function FailuresOf(history: seq<Outcome>, f: string): nat
    decreases |history|
  {
    if history == [] then 0
    else FailuresOf(history[..|history| - 1], f) + if history[|history| - 1] == (f, false) then 1 else 0
  }

  /** The files left out of the choice of the next target. */
  function Excluded(counts: map<string, nat>): set<string> {
    set f | f in counts && counts[f] >= FailureThreshold
  }

  /** The count of a file is the number of its failures since its last success (since the
      start, when it never succeeded): `k` is the iteration after that success. */
  lemma {:induction false} CountIsFailuresSinceSuccess(history: seq<Outcome>, f: string, k: nat)
    requires k <= |history|
    requires k == 0 || history[k - 1] == (f, true)
    requires forall i :: k <= i < |history| ==> history[i] != (f, true)
    ensures CountOf(Counts(history), f) == FailuresOf(history[k..], f)
    decreases |history|
  {
    if |history| == k {
      assert history[k..] == [];
    } else {
      var n := |history| - 1;
      var init := history[..n];
      assert init[k..] == history[k..][..|history[k..]| - 1];
      CountIsFailuresSinceSuccess(init, f, k);
    }
  }

  /** A file is excluded exactly when it failed at least ten times since its last success. */
  lemma ExcludedIff(history: seq<Outcome>, f: string, k: nat)
    requires k <= |history|
    requires k == 0 || history[k - 1] == (f, true)
    requires forall i :: k <= i < |history| ==> history[i] != (f, true)
    ensures f in Excluded(Counts(history)) <==> FailuresOf(history[k..], f) >= FailureThreshold
  {
    CountIsFailuresSinceSuccess(history, f, k);
  }

  /** When the next target is not excluded, every excluded file stays excluded and only the
      target itself can join them. */
  lemma ExclusionPermanent(history: seq<Outcome>, target: string, covered: bool)
    requires target !in Excluded(Counts(history))
    ensures Excluded(Counts(history)) <= Excluded(Counts(history + [(target, covered)]))
    ensures Excluded(Counts(history + [(target, covered)])) <= Excluded(Counts(history)) + {target}
  {
    var next := history + [(target, covered)];
    assert next[..|next| - 1] == history;
  }

  /** The `file_failure_count` dictionary of the loop. */
  class FailureTracker {
    var counts: map<string, nat>
    /** The outcomes recorded so far. */
    ghost var history: seq<Outcome>

    ghost predicate Valid()
      reads this
    {
      counts == Counts(history)
    }

    constructor()
      ensures Valid() && history == []
    {
      counts := map[];
      history := [];
    }

    /** The end of an iteration: the target's count is reset on coverage and increased
        otherwise. */
    method Record(targetFile: string, covered: bool)
      requires Valid()
      modifies this
      ensures Valid() && history == old(history) + [(targetFile, covered)]
      ensures counts == old(counts)[targetFile := if covered then 0 else CountOf(old(counts), targetFile) + 1]
    {
      if covered {
        counts := counts[targetFile := 0];
      } else {
        counts := counts[targetFile := (if targetFile in counts then counts[targetFile] else 0) + 1];
      }
      history := history + [(targetFile, covered)];
      assert history[..|history| - 1] == old(history);
    }

    /** The files whose count reached the threshold. */
    method ExcludedFiles() returns (exclude: set<string>)
      requires Valid()
      ensures forall f :: f in exclude <==> CountOf(Counts(history), f) >= FailureThreshold
    {
      exclude := set f | f in counts && counts[f] >= FailureThreshold;
    }
  }

  // ---------------------------------------------------------------------------------
  // The target block
  // ---------------------------------------------------------------------------------

  /** The sort order of `blocks.sort(key=block_size, reverse=True)`. */
  predicate LargerOrSame(a: UA.Block, b: UA.Block) {
    a.size >= b.size
  }

  lemma LargerOrSameOrder()
    ensures Total(LargerOrSame) && Transitive(LargerOrSame)
  {
  }

  /** The first block after sorting by size, largest first; none when there are no blocks. */
  function SelectTargetBlock(blocks: seq<UA.Block>): (r: Option<UA.Block>)
    ensures r.None? <==> blocks == []
  {
    if blocks == [] then None else Some(Sort(blocks, LargerOrSame)[0])
  }

  /** The chosen block is the earliest of the largest blocks: none is larger, and every
      block before it is smaller. */
  lemma SelectTargetBlockMeaning(blocks: seq<UA.Block>) returns (i: nat)
    requires blocks != []
    ensures i < |blocks| && SelectTargetBlock(blocks) == Some(blocks[i])
    ensures forall j :: 0 <= j < |blocks| ==> blocks[j].size <= blocks[i].size
    ensures forall j :: 0 <= j < i ==> blocks[j].size < blocks[i].size
  {
    LargerOrSameOrder();
    i := SortHead(blocks, LargerOrSame);
  }

  // ---------------------------------------------------------------------------------
  // Settings of the program prompt
  // ---------------------------------------------------------------------------------

  /** What the program prompt is given. */
  datatype Settings = Settings(coverageGoal: string, compileOptions: string, targetBlock: string)

  const DefaultGoal := "Cover the uncovered compiler code blocks"
  const DefaultOptions := "-O2"

  /** The parsed requirements with the loop's fallbacks: a default goal, options cleaned
      once more (and "-O2" when nothing is left), and the uncovered code of the chosen
      block when no block was described. */
  function PromptSettings(parsed: R.Requirements, uncoveredCode: string): (s: Settings)
    ensures s.coverageGoal != "" && s.compileOptions != ""
    ensures s.coverageGoal == (if parsed.coverageGoal != "" then parsed.coverageGoal else DefaultGoal)
    ensures s.targetBlock == (if parsed.targetBlock != "" then parsed.targetBlock else uncoveredCode)
  {
    var given := if parsed.compileOptions != "" then parsed.compileOptions else DefaultOptions;
    var cleaned := CO.CleanCompileOptions(given);
    Settings(
      if parsed.coverageGoal != "" then parsed.coverageGoal else DefaultGoal,
      if cleaned != "" then cleaned else DefaultOptions,
      if parsed.targetBlock != "" then parsed.targetBlock else uncoveredCode)
  }

  /** The options handed on are never empty and are made of flags only: the flags of the
      given options without their remarks (the parsed ones, or "-O2" when none were
      parsed), or the single default "-O2" when no flag is left. */
  lemma SettingsOptionsAreFlags(parsed: R.Requirements, uncoveredCode: string)
    ensures var opts := PromptSettings(parsed, uncoveredCode).compileOptions;
      CO.Flags(opts, 0) != [] && forall t :: t in CO.Flags(opts, 0) ==> CO.IsToken(t)
    ensures var given := if parsed.compileOptions != "" then parsed.compileOptions else DefaultOptions;
      var kept := CO.Flags(CO.Remarkless(given), 0);
      CO.Flags(PromptSettings(parsed, uncoveredCode).compileOptions, 0)
        == (if kept != [] then kept else [DefaultOptions])
  {
    var given := if parsed.compileOptions != "" then parsed.compileOptions else DefaultOptions;
    var cleaned := CO.CleanCompileOptions(given);
    CO.CleanCompileOptionsMeaning(given);
    if cleaned != "" {
      CO.FlagsAreTokens(cleaned, 0);
    } else {
      DefaultIsFlag(DefaultOptions);
    }
  }

  /** "-O2" reads back as the one flag "-O2". */
  lemma DefaultIsFlag(o: string)
    requires o == "-O2"
    ensures CO.Flags(o, 0) == [o] && CO.IsToken(o)
  {
    assert CO.IsToken(o);
    assert Join(" ", [o]) == o;
    CO.FlagsOfJoin([o]);
  }

  /** The options of the initial program: the first of the ordered options found in the
      initial prompt (`found` stands for the matches of the extraction patterns), or "-O2"
      when there are none. */
  function InitialCompileOptions(found: seq<string>): string {
    var opts := CO.Order(CO.Normalized(found));
    if opts != [] then opts[0] else DefaultOptions
  }

  /** Unless nothing was found, the initial options are a normalised found option ranked
      first: one with an optimisation level when any has one, the longest among those. */
  lemma InitialCompileOptionsMeaning(found: seq<string>)
    ensures CO.Normalized(found) == [] ==> InitialCompileOptions(found) == DefaultOptions
    ensures CO.Normalized(found) != [] ==>
      InitialCompileOptions(found) in CO.Normalized(found)
      && forall y :: y in CO.Normalized(found) ==> CO.RankLe(InitialCompileOptions(found), y)
  {
    var cleaned := CO.Normalized(found);
    if cleaned != [] {
      var best := CO.OrderMeaning(cleaned);
      forall y | y in cleaned
        ensures CO.RankLe(InitialCompileOptions(found), y)
      {
        var j :| 0 <= j < |cleaned| && cleaned[j] == y;
      }
    }
  }

  // ---------------------------------------------------------------------------------
  // Bad cases
  // ---------------------------------------------------------------------------------

  /** The longest part of the in-file improvements kept in a bad case. */
  const InFileLimit: nat := 500

  /** The record saved for an uncovered block: the full prompt, the compile status, the
      other improved files joined by ", ", and at most the first 500 characters of the
      improvements inside the target file. */
  function BadCaseRecord(fullPrompt: string, compileStatus: string, otherFiles: seq<string>,
                         inFile: string): (r: CaseData)
    ensures Field(r, "prompt_base") == fullPrompt
    ensures Field(r, "compilation_status") == compileStatus
    ensures otherFiles == [] ==> Field(r, "improved_other_files") == ""
    ensures var kept := Field(r, "improved_in_file");
      |kept| == (if |inFile| < InFileLimit then |inFile| else InFileLimit) && StartsWith(inFile, kept)
  {
    map["prompt_base" := fullPrompt,
        "compilation_status" := compileStatus,
        "improved_other_files" := Join(", ", otherFiles),
        "improved_in_file" := if |inFile| < InFileLimit then inFile else inFile[..InFileLimit]]
  }

  /** The bad-case directory after a record is saved for a target file: it becomes the
      next case of the file's folder, named as the finder names it. */
  function SaveBadCase(badCases: map<string, seq<CaseData>>, targetFile: string, record: CaseData)
    : (r: map<string, seq<CaseData>>)
    ensures NormalizeTargetName(targetFile) in r
    ensures var folder := NormalizeTargetName(targetFile);
      r[folder] == (if folder in badCases then badCases[folder] else []) + [record]
    ensures forall g :: g != NormalizeTargetName(targetFile) ==>
      (g in r <==> g in badCases) && (g in badCases ==> r[g] == badCases[g])
  {
    var folder := NormalizeTargetName(targetFile);
    var existing := if folder in badCases then badCases[folder] else [];
    badCases[folder := existing + [record]]
  }

  /** A saved bad case can be found again: the finder then always prints some case of the
      file, and the newest case is the saved record. */
  lemma SavedCaseFound(badCases: map<string, seq<CaseData>>, targetFile: string, record: CaseData)
    ensures var saved := SaveBadCase(badCases, targetFile, record);
      var n := |saved[NormalizeTargetName(targetFile)]|;
      n > 0
      && (forall pick :: Run(saved, targetFile, pick).Printed?)
      && Run(saved, targetFile, n - 1) == Printed(FormatOutput(record))
  {
    var saved := SaveBadCase(badCases, targetFile, record);
    var n := |saved[NormalizeTargetName(targetFile)]|;
    assert (n - 1) % n == n - 1;
  }

  /** The printed bad case starts with the fixed sentence followed by the full prompt of the
      iteration that failed. */
  lemma BadCasePrintsPrompt(fullPrompt: string, compileStatus: string, otherFiles: seq<string>,
                            inFile: string)
    ensures var out := FormatOutput(BadCaseRecord(fullPrompt, compileStatus, otherFiles, inFile));
      |Opening| + |fullPrompt| < |out|
      && out[..|Opening|] == Opening
      && out[|Opening|..|Opening| + |fullPrompt|] == fullPrompt
  {
    FormatOutputLayout(BadCaseRecord(fullPrompt, compileStatus, otherFiles, inFile));
  }

  /** The end of an iteration: the failure count is updated and, when the block stayed
      uncovered, a bad case is saved under the target file's folder. */
  method EndIteration(tracker: FailureTracker, badCases: map<string, seq<CaseData>>,
                      targetFile: string, covered: bool, record: CaseData)
    returns (saved: map<string, seq<CaseData>>)
    requires tracker.Valid()
    modifies tracker
    ensures tracker.Valid() && tracker.history == old(tracker.history) + [(targetFile, covered)]
    ensures saved == if covered then badCases else SaveBadCase(badCases, targetFile, record)
  {
    tracker.Record(targetFile, covered);
    if covered {
      saved := badCases;
    } else {
      var folder := NormalizeTargetName(targetFile);
      var existing := if folder in badCases then badCases[folder] else [];
      saved := badCases[folder := existing + [record]];
    }
  }
}
