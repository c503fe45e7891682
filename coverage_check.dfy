/** `check_lines_coverage` in `main.py`: did any line of the chosen uncovered block get
    executed by the new programs? */
module CoverageCheck {
  import opened Wrappers
  import opened Text
  import opened Sorted
  import opened GcovLines
  import opened GcovTargets

  /** The outcome: the verdict with the target lines, or the `FileNotFoundError` raised
      when the gcov file is missing. */
  datatype Coverage = Checked(coveredAny: bool, targetLines: seq<nat>) | GcovFileNotFound

  /** A gcov line (pattern `^\s*([#\-\d]+)\s*:\s*(\d+)\s*:`) whose line number is a
      target and whose count is an execution count. */
  predicate CoversTarget(line: string, targets: seq<nat>) {
    match MatchHead(line, true)
    case None => false
    case Some(h) => h.lineNo in targets && AllDigits(h.count)
  }

  /** The target lines: `sorted(set(findall(...)))`. */
  function TargetLines(blockText: string): (r: seq<nat>)
    ensures Increasing(r)
    ensures forall n :: n in r <==> n in FindTargets(blockText)
  {
    SortedUnique(FindTargets(blockText))
  }

  /** What `check_lines_coverage` answers: no target lines means `(False, [])` without
      looking at the file; otherwise a missing file is an error, and the block counts as
      covered exactly when some line of the file covers a target. */
  function CheckSpec(blockText: string, gcovFile: Option<seq<string>>): Coverage {
    var targets := TargetLines(blockText);
    if targets == [] then Checked(false, [])
    else if gcovFile.None? then GcovFileNotFound
    else Checked(CoversAny(gcovFile.value, targets), targets)
  }

  /** The check itself: the file is read line by line and the first covering line ends the search. */
  method CheckLinesCoverage(blockText: string, gcovFile: Option<seq<string>>) returns (r: Coverage)
    ensures r == CheckSpec(blockText, gcovFile)
  {
    var targets := TargetLines(blockText);
    if targets == [] {
      return Checked(false, []);
    }
    if gcovFile.None? {
      return GcovFileNotFound;
    }
    var lines := gcovFile.value;
    var i := 0;
    while i < |lines|
      invariant 0 <= i <= |lines|
      invariant forall j :: 0 <= j < i ==> !CoversTarget(lines[j], targets)
    {
      var m := MatchHead(lines[i], true);
      if m.Some? && m.value.lineNo in targets && AllDigits(m.value.count) {
        assert CoversTarget(lines[i], targets);
        return Checked(true, targets);
      }
      i := i + 1;
    }
    assert !CoversAny(lines, targets);
    return Checked(false, targets);
  }

  /** For a printed uncovered block, the target lines are exactly the line numbers of its
      `#####` entries, ascending and without repeats. */
  lemma TargetsOfPrintedBlock(ub: seq<GcovLine>)
    requires forall i :: 0 <= i < |ub| ==> BlockEntry(ub[i])
    ensures TargetLines(FormatUncoveredBlock(ub)) == SortedUnique(UncoveredNumbers(ub))
    ensures forall n :: n in TargetLines(FormatUncoveredBlock(ub)) <==> n in UncoveredNumbers(ub)
  {
    FindTargetsOfBlock(ub);
  }

  /** A block without `#####` entries gives `(False, [])`, whatever the gcov file holds. */
  lemma NoUncoveredEntries(ub: seq<GcovLine>, gcovFile: Option<seq<string>>)
    requires forall i :: 0 <= i < |ub| ==> BlockEntry(ub[i]) && ub[i].count != "#####"
    ensures CheckSpec(FormatUncoveredBlock(ub), gcovFile) == Checked(false, [])
  {
    FindTargetsOfBlock(ub);
    NoUncoveredNumbers(ub);
  }

  lemma {:induction false} NoUncoveredNumbers(ub: seq<GcovLine>)
    requires forall i :: 0 <= i < |ub| ==> ub[i].count != "#####"
    ensures UncoveredNumbers(ub) == []
    decreases |ub|
  {
    if ub != [] {
      NoUncoveredNumbers(ub[1..]);
    }
  }

  /** Some line of the file covers one of `targets`. */
  predicate CoversAny(lines: seq<string>, targets: seq<nat>) {
    exists i :: 0 <= i < |lines| && CoversTarget(lines[i], targets)
  }

  /** Only which numbers are targets matters, not their order or repetitions. */
  lemma CoversAnySameElements(lines: seq<string>, a: seq<nat>, b: seq<nat>)
    requires forall n :: n in a <==> n in b
    ensures CoversAny(lines, a) <==> CoversAny(lines, b)
  {
    assert forall i :: 0 <= i < |lines| ==> (CoversTarget(lines[i], a) <==> CoversTarget(lines[i], b));
  }

  /** For a printed block with a `#####` entry and an existing gcov file: covered exactly
      when some line of the file carries the number of one of the block's `#####` entries
      and an execution count. */
  lemma CoveredIffEntryExecuted(ub: seq<GcovLine>, lines: seq<string>)
    requires forall i :: 0 <= i < |ub| ==> BlockEntry(ub[i])
    requires exists i :: 0 <= i < |ub| && ub[i].count == "#####"
    ensures CheckSpec(FormatUncoveredBlock(ub), Some(lines)).Checked?
    ensures CheckSpec(FormatUncoveredBlock(ub), Some(lines)).coveredAny <==> CoversAny(lines, UncoveredNumbers(ub))
  {
    var targets := TargetLines(FormatUncoveredBlock(ub));
    TargetsOfPrintedBlock(ub);
    var i :| 0 <= i < |ub| && ub[i].count == "#####";
    UncoveredNumbersHas(ub, i);
    assert ub[i].lineNo in targets;
    assert CheckSpec(FormatUncoveredBlock(ub), Some(lines)) == Checked(CoversAny(lines, targets), targets);
    CoversAnySameElements(lines, targets, UncoveredNumbers(ub));
  }

  lemma {:induction false} UncoveredNumbersHas(ub: seq<GcovLine>, i: nat)
    requires i < |ub| && ub[i].count == "#####"
    ensures ub[i].lineNo in UncoveredNumbers(ub)
    decreases i
  {
    if i > 0 {
      UncoveredNumbersHas(ub[1..], i - 1);
    }
  }
}
