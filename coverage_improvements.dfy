/** `compute_coverage_improvements` in `main.py`: which lines became covered between two
    coverage snapshots, in the target file and in the other files. */
module CoverageImprovements {
  import opened Text
  import opened Sorted
  import opened GcovLines
  import opened GcovParse

  /** The count gcov prints for an executable line that never ran. */
  const UNEXECUTED: string := "#####"

  /** `before_data.get(ln, ("#####", ""))`: a line the old snapshot lacks counts as never run. */
  function OldEntry(before: GcovData, ln: nat): (e: (string, string))
    ensures ln !in before ==> e.0 == UNEXECUTED && e.1 == ""
  {
    if ln in before then before[ln] else (UNEXECUTED, "")
  }

  /** A line of the new snapshot that was never run before and now has an execution count. */
  predicate NewlyCovered(before: GcovData, after: GcovData, ln: nat) {
    ln in after && OldEntry(before, ln).0 == UNEXECUTED && AllDigits(after[ln].0)
  }

  /** The newly covered lines of one file. */
  function ImprovedLines(before: GcovData, after: GcovData): (r: set<nat>)
    ensures forall ln :: ln in r <==> NewlyCovered(before, after, ln)
  {
    set ln | ln in after.Keys && NewlyCovered(before, after, ln)
  }

  /** `old[1] or new_code`: the old source text unless it is empty. */
  function CodeOf(before: GcovData, after: GcovData, ln: nat): string
    requires ln in after
  {
    var oldCode := OldEntry(before, ln).1;
    if oldCode != "" then oldCode else after[ln].1
  }

  /** A finite set of line numbers listed in ascending order. */
  ghost function SortedSet(s: set<nat>): (r: seq<nat>)
    ensures Increasing(r)
    ensures forall y :: y in r <==> y in s
    decreases |s|
  {
    if s == {} then []
    else
      MinExists(s);
      var m :| m in s && forall y :: y in s ==> m <= y;
      var t := SortedSet(s - {m});
      MinFirst(s, m, t);
      [m] + t
  }

  /** The least element in front of the ascending listing of the others lists the set. */
  lemma MinFirst(s: set<nat>, m: nat, t: seq<nat>)
    requires m in s && forall y :: y in s ==> m <= y
    requires Increasing(t) && forall y :: y in t <==> y in s - {m}
    ensures Increasing([m] + t)
    ensures forall y :: y in [m] + t <==> y in s
  {
    ConsIncreasing(m, t);
  }

  /** A non-empty finite set of naturals has a least element. */
  lemma MinExists(s: set<nat>)
    requires s != {}
    ensures exists m :: m in s && forall y :: y in s ==> m <= y
  {
    var m := Least(s);
  }

  lemma {:induction false} Least(s: set<nat>) returns (m: nat)
    requires s != {}
    ensures m in s && forall y :: y in s ==> m <= y
    decreases |s|
  {
    var x :| x in s;
    var t := s - {x};
    assert forall y :: y in s ==> y == x || y in t;
    if t == {} {
      m := x;
    } else {
      var m' := Least(t);
      m := if x < m' then x else m';
    }
  }

  /** The newly covered lines of one file in ascending order, each as `f"{ln}:{code}"`. */
  function Render(before: GcovData, after: GcovData, lns: seq<nat>): (parts: seq<string>)
    requires forall x :: x in lns ==> x in after
    ensures |parts| == |lns|
  {
    seq(|lns|, i requires 0 <= i < |lns| => NatToString(lns[i]) + ":" + CodeOf(before, after, lns[i]))
  }

  /** The file name without its `.gcov` extension: every `.gcov` is removed when the name
      ends with one. */
  function FileBasename(gcovName: string): string {
    if EndsWith(gcovName, ".gcov") then ReplaceAll(gcovName, ".gcov", "") else gcovName
  }

  /** The base name of the target file, with Windows separators read as `/`. */
  function TargetBasename(targetFile: string): (r: string)
    ensures '/' !in r
  {
    Basename(ReplaceAll(targetFile, "\\", "/"))
  }

  /** Whether a gcov file belongs to the target file. */
  predicate IsTargetFile(gcovName: string, targetBase: string) {
    FileBasename(gcovName) == targetBase || gcovName == targetBase + ".gcov"
  }

  /** `cov_before.get(gcov_name, {})`. */
  function BeforeOf(covBefore: map<string, GcovData>, gcovName: string): GcovData {
    if gcovName in covBefore then covBefore[gcovName] else map[]
  }

  /** The two results being accumulated: the other improved files, and the parts of the
      target file's text. */
  datatype Report = Report(otherFiles: seq<string>, inFileParts: seq<string>)

  /** The report after the given files of the new snapshot (in the dictionary's order):
      a file without newly covered lines is skipped, the target file adds its new lines in
      ascending order, any other file adds its base name. */
  ghost function Improvements(targetBase: string, covBefore: map<string, GcovData>,
                              covAfter: seq<(string, GcovData)>): Report
    decreases |covAfter|
  {
    if covAfter == [] then Report([], [])
    else
      var prev := Improvements(targetBase, covBefore, covAfter[..|covAfter| - 1]);
      var name := covAfter[|covAfter| - 1].0;
      FileStep(prev, targetBase, name, BeforeOf(covBefore, name), covAfter[|covAfter| - 1].1)
  }

  /** One file of the new snapshot added to the report. */
  ghost function FileStep(prev: Report, targetBase: string, name: string, before: GcovData,
                          after: GcovData): Report
  {
    var lines := ImprovedLines(before, after);
    if lines == {} then prev
    else if IsTargetFile(name, targetBase) then
      var lns := SortedSet(lines);
      prev.(inFileParts := prev.inFileParts + Render(before, after, lns))
    else prev.(otherFiles := prev.otherFiles + [FileBasename(name)])
  }

  /** The newly covered lines of one file: the dictionary is walked in whatever order, and
      the lines found are kept sorted. */
  method NewlyCoveredLines(before: GcovData, after: GcovData) returns (lns: seq<nat>)
    ensures lns == SortedSet(ImprovedLines(before, after))
    ensures forall x :: x in lns ==> x in after
  {
    lns := [];
    var rest := after.Keys;
    while rest != {}
      invariant rest <= after.Keys
      invariant Increasing(lns)
      invariant forall ln :: ln in lns <==> ln in after.Keys - rest && NewlyCovered(before, after, ln)
      decreases |rest|
    {
      var ln :| ln in rest;
      if OldEntry(before, ln).0 == UNEXECUTED && AllDigits(after[ln].0) {
        lns := Insert(lns, ln);
      }
      rest := rest - {ln};
    }
    IncreasingUnique(lns, SortedSet(ImprovedLines(before, after)));
  }

  /** `compute_coverage_improvements`: the other improved files in the order of the new
      snapshot, and the target file's new lines joined by newlines. */
  method ComputeCoverageImprovements(targetFile: string, covBefore: map<string, GcovData>,
                                     covAfter: seq<(string, GcovData)>)
    returns (otherFiles: seq<string>, inFile: string)
    ensures var r := Improvements(TargetBasename(targetFile), covBefore, covAfter);
      otherFiles == r.otherFiles && inFile == Join("\n", r.inFileParts)
  {
    var targetBase := TargetBasename(targetFile);
    otherFiles := [];
    var parts: seq<string> := [];
    var i := 0;
    while i < |covAfter|
      invariant 0 <= i <= |covAfter|
      invariant Improvements(targetBase, covBefore, covAfter[..i]) == Report(otherFiles, parts)
    {
      assert covAfter[..i + 1][..i] == covAfter[..i];
      var (name, after) := covAfter[i];
      var before := BeforeOf(covBefore, name);
      ghost var prev := Report(otherFiles, parts);
      assert Improvements(targetBase, covBefore, covAfter[..i + 1]) == FileStep(prev, targetBase, name, before, after);
      var lns := NewlyCoveredLines(before, after);
      if lns != [] {
        if FileBasename(name) == targetBase || name == targetBase + ".gcov" {
          ghost var parts0 := parts;
          var j := 0;
          while j < |lns|
            invariant 0 <= j <= |lns|
            invariant parts == parts0 + Render(before, after, lns[..j])
          {
            RenderSnoc(before, after, lns, j);
            parts := parts + [NatToString(lns[j]) + ":" + CodeOf(before, after, lns[j])];
            j := j + 1;
          }
          assert lns[..j] == lns;
        } else {
          otherFiles := otherFiles + [FileBasename(name)];
        }
      }
      i := i + 1;
    }
    assert covAfter[..i] == covAfter;
    inFile := Join("\n", parts);
  }

  lemma RenderSnoc(before: GcovData, after: GcovData, lns: seq<nat>, j: nat)
    requires j < |lns|
    requires forall x :: x in lns ==> x in after
    ensures Render(before, after, lns[..j + 1])
      == Render(before, after, lns[..j]) + [NatToString(lns[j]) + ":" + CodeOf(before, after, lns[j])]
  {
  }

  /** A file's base name is reported among the other improved files exactly when some
      file of the new snapshot with that base name gained a covered line and is not the
      target file. */
  lemma {:induction false} OtherFilesIff(targetBase: string, covBefore: map<string, GcovData>,
                                         covAfter: seq<(string, GcovData)>, f: string)
    ensures f in Improvements(targetBase, covBefore, covAfter).otherFiles <==>
      exists i :: 0 <= i < |covAfter| && ImprovedOther(targetBase, covBefore, covAfter[i], f)
    decreases |covAfter|
  {
    if covAfter != [] {
      var k := |covAfter| - 1;
      var init := covAfter[..k];
      OtherFilesIff(targetBase, covBefore, init, f);
      assert forall i :: 0 <= i < k ==> init[i] == covAfter[i];
      if ImprovedOther(targetBase, covBefore, covAfter[k], f) {
        assert f in Improvements(targetBase, covBefore, covAfter).otherFiles;
      }
    }
  }

  /** A file of the new snapshot that gained a covered line, is not the target file, and
      has base name `f`. */
  predicate ImprovedOther(targetBase: string, covBefore: map<string, GcovData>,
                          entry: (string, GcovData), f: string) {
    ImprovedLines(BeforeOf(covBefore, entry.0), entry.1) != {}
    && !IsTargetFile(entry.0, targetBase) && FileBasename(entry.0) == f
  }

  /** When the target file is the only target entry of the new snapshot, the text lists
      exactly its newly covered lines, ascending, as `ln:code`. */
  lemma {:induction false} TargetPartsOnly(targetBase: string, covBefore: map<string, GcovData>,
                                           covAfter: seq<(string, GcovData)>, t: nat)
    requires t < |covAfter| && IsTargetFile(covAfter[t].0, targetBase)
    requires forall i :: 0 <= i < |covAfter| && i != t ==> !IsTargetFile(covAfter[i].0, targetBase)
    ensures var before, after := BeforeOf(covBefore, covAfter[t].0), covAfter[t].1;
      var lns := SortedSet(ImprovedLines(before, after));
      (forall x :: x in lns ==> x in after)
      && Improvements(targetBase, covBefore, covAfter).inFileParts == Render(before, after, lns)
    decreases |covAfter|
  {
    var k := |covAfter| - 1;
    var init := covAfter[..k];
    assert forall i :: 0 <= i < k ==> init[i] == covAfter[i];
    if t < k {
      TargetPartsOnly(targetBase, covBefore, init, t);
    } else {
      NoTargetParts(targetBase, covBefore, init);
    }
  }

  /** Without a target entry there are no target lines. */
  lemma {:induction false} NoTargetParts(targetBase: string, covBefore: map<string, GcovData>,
                                         covAfter: seq<(string, GcovData)>)
    requires forall i :: 0 <= i < |covAfter| ==> !IsTargetFile(covAfter[i].0, targetBase)
    ensures Improvements(targetBase, covBefore, covAfter).inFileParts == []
    decreases |covAfter|
  {
    if covAfter != [] {
      var k := |covAfter| - 1;
      var init := covAfter[..k];
      assert forall i :: 0 <= i < k ==> init[i] == covAfter[i];
      NoTargetParts(targetBase, covBefore, init);
    }
  }

  /** Two identical snapshots of a file show no newly covered line: a line counted
      `#####` still has no execution count. */
  lemma UnchangedNoImprovement(m: GcovData)
    ensures ImprovedLines(m, m) == {}
  {
    forall ln | ln in m
      ensures !NewlyCovered(m, m, ln)
    {
      assert UNEXECUTED[0] == '#';
    }
  }

  /** A line gcov printed `#####` in the old file and with an execution count in the new
      file is newly covered, with the old source text when that is not empty. */
  lemma PrintedLineImproved(oldLines: seq<string>, newLines: seq<string>, n: nat,
                            oldCode: string, count: string, newCode: string)
    requires AllDigits(count) && '\n' !in oldCode && '\n' !in newCode
    ensures var before := Parsed(oldLines + [FormatLine(UNEXECUTED, n, oldCode) + "\n"]);
      var after := Parsed(newLines + [FormatLine(count, n, newCode) + "\n"]);
      n in ImprovedLines(before, after)
      && CodeOf(before, after, n) == if oldCode != "" then oldCode else newCode
  {
    assert IsCountText(UNEXECUTED) && IsCountText(count);
    var oldLine := FormatLine(UNEXECUTED, n, oldCode) + "\n";
    var newLine := FormatLine(count, n, newCode) + "\n";
    ParsePrinted(oldLines, GcovLine(UNEXECUTED, n, oldCode));
    ParsePrinted(newLines, GcovLine(count, n, newCode));
    var before := Parsed(oldLines + [oldLine]);
    var after := Parsed(newLines + [newLine]);
    assert before[n] == (UNEXECUTED, oldCode);
    assert after[n] == (count, newCode);
    assert NewlyCovered(before, after, n);
  }

  /** A line the old file does not list at all counts as never run: with an execution
      count in the new file it is newly covered, with the new source text. */
  lemma MissingLineImproved(oldLines: seq<string>, newLines: seq<string>, n: nat,
                            count: string, newCode: string)
    requires forall i :: !MatchesAt(oldLines, i, n)
    requires AllDigits(count) && '\n' !in newCode
    ensures var after := Parsed(newLines + [FormatLine(count, n, newCode) + "\n"]);
      n in ImprovedLines(Parsed(oldLines), after) && CodeOf(Parsed(oldLines), after, n) == newCode
  {
    ParsedOnlyMatched(oldLines, n);
    ParsePrinted(newLines, GcovLine(count, n, newCode));
  }
}
