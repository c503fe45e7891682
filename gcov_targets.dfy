/** The target lines of an uncovered block: `check_lines_coverage` in `main.py` reads
    them back out of the text `format_uncovered_block` printed, with the pattern
    `^\s*#####:?\s*(\d+)\s*:` under `re.MULTILINE` and `findall`. */
module GcovTargets {
  import opened Wrappers
  import opened Text
  import opened GcovLines

  /** One match of the target pattern: the captured line number and where the match ends. */
  datatype Target = Target(lineNo: nat, end: nat)

  /** The target pattern matched at position `p` (without the `^` test). Every piece
      is followed by something its class cannot contain, so greedy matching is the
      only way to match; `:?` is taken whenever a colon is there, since without it
      `\d+` would have to start on that colon. */
  function TargetAt(s: string, p: nat): (r: Option<Target>)
    requires p <= |s|
    ensures r.Some? ==> p < r.value.end <= |s|
  {
    MarkerAt(s, SpanEnd(s, p, IsSpace))
  }

  /** `#####:?` at `a`, then the rest of the pattern. */
  function MarkerAt(s: string, a: nat): (r: Option<Target>)
    requires a <= |s|
    ensures r.Some? ==> a < r.value.end <= |s|
  {
    if !HashesAt(s, a) then None
    else NumberAt(s, if a + 5 < |s| && s[a + 5] == ':' then a + 6 else a + 5)
  }

  /** `#####` at `a`. */
  predicate HashesAt(s: string, a: nat) {
    a + 5 <= |s| && s[a] == '#' && s[a + 1] == '#' && s[a + 2] == '#' && s[a + 3] == '#' && s[a + 4] == '#'
  }

  /** `\s*(\d+)\s*:` at `b`. */
  function NumberAt(s: string, b: nat): (r: Option<Target>)
    requires b <= |s|
    ensures r.Some? ==> b < r.value.end <= |s|
  {
    var c := SpanEnd(s, b, IsSpace);
    var d := SpanEnd(s, c, IsDigit);
    var f := SpanEnd(s, d, IsSpace);
    if d == c || f == |s| || s[f] != ':' then None
    else
      SpanEndRun(s, c, IsDigit);
      Some(Target(DigitsValue(s[c..d]), f + 1))
  }

  /** `findall` under `re.MULTILINE` over the rest `s` of the text: `atStart` says
      whether `^` holds at its first character (the start of the text, or just after a
      line feed). Every position is tried in turn, and after a match the search
      resumes where the match ended. */
  function FindTargetsFrom(s: string, atStart: bool): (r: seq<nat>)
    decreases |s|
  {
    if atStart && TargetAt(s, 0).Some? then
      var t := TargetAt(s, 0).value;
      [t.lineNo] + FindTargetsFrom(s[t.end..], s[t.end - 1] == '\n')
    else if s == [] then []
    else FindTargetsFrom(s[1..], s[0] == '\n')
  }

  /** `re.findall(pattern, block_text, re.MULTILINE)` with the target pattern. */
  function FindTargets(s: string): seq<nat> {
    FindTargetsFrom(s, true)
  }

  /** `format_uncovered_block`: the block's entries printed one per line, joined by line feeds. */
  function FormatUncoveredBlock(ub: seq<GcovLine>): string {
    Join("\n", FormatEntries(ub))
  }

  function FormatEntries(ub: seq<GcovLine>): (r: seq<string>)
    ensures |r| == |ub|
    ensures forall i :: 0 <= i < |ub| ==> r[i] == FormatLine(ub[i].count, ub[i].lineNo, ub[i].code)
  {
    if ub == [] then [] else [FormatLine(ub[0].count, ub[0].lineNo, ub[0].code)] + FormatEntries(ub[1..])
  }

  /** The line numbers of the block's never-executed entries, in block order. */
  function UncoveredNumbers(ub: seq<GcovLine>): seq<nat> {
    if ub == [] then [] else OwnNumber(ub[0]) + UncoveredNumbers(ub[1..])
  }

  /** What an uncovered block holds: never-executed (`#####`) and non-executable (`-`)
      entries whose source text has no line feed. */
  predicate BlockEntry(e: GcovLine) {
    (e.count == "#####" || e.count == "-") && '\n' !in e.code
  }

  /** The target pattern on a printed `#####` entry captures the entry's line number. */
  lemma TargetAtLayout(s: string, digits: string, b: nat, e: nat)
    requires AllDigits(digits) && LaidOut(s, "#####", digits, b, e)
    ensures TargetAt(s, 0) == Some(Target(DigitsValue(digits), e + 1))
  {
    var a := b - 5;
    assert HashesAt(s, a) by {
      assert s[a..b] == "#####";
      assert forall k :: a <= k < b ==> s[k] == s[a..b][k - a];
    }
    SpanEndExact(s, 0, a, IsSpace);
    assert TargetAt(s, 0) == MarkerAt(s, a);
    assert MarkerAt(s, a) == NumberAt(s, b + 1);
    NumberAtLayout(s, b + 1, digits, e);
  }

  /** `\s*(\d+)\s*:` on padding, the digits and the colon at `e`. */
  lemma NumberAtLayout(s: string, from: nat, digits: string, e: nat)
    requires AllDigits(digits) && from <= e - |digits| && e < |s| && s[e] == ':'
    requires forall k :: from <= k < e - |digits| ==> IsSpace(s[k])
    requires s[e - |digits|..e] == digits
    ensures NumberAt(s, from) == Some(Target(DigitsValue(digits), e + 1))
  {
    var c := e - |digits|;
    SliceAll(s, c, digits, IsDigit);
    SpanEndExact(s, from, c, IsSpace);
    SpanEndExact(s, c, e, IsDigit);
    SpanEndExact(s, e, e, IsSpace);
  }

  /** A printed entry whose count does not begin with `#` is never a target. */
  lemma NoTargetAtLayout(s: string, count: string, digits: string, b: nat, e: nat)
    requires IsCountText(count) && count[0] != '#' && LaidOut(s, count, digits, b, e)
    ensures TargetAt(s, 0).None?
  {
    var a := b - |count|;
    assert s[a] == count[0] by {
      assert s[a..b][0] == count[0];
    }
    SpanEndExact(s, 0, a, IsSpace);
  }

  /** Positions inside a line, where `^` does not hold, are skipped over. */
  lemma {:induction false} SkipInsideLine(s: string, q: nat)
    requires q <= |s|
    requires forall k :: 0 <= k < q ==> s[k] != '\n'
    ensures FindTargetsFrom(s, false) == FindTargetsFrom(s[q..], false)
    decreases q
  {
    if q > 0 {
      SkipInsideLine(s[1..], q - 1);
      assert s[1..][q - 1..] == s[q..];
    }
  }

  /** A printed entry occupying positions below `q`, with a line feed or the end of the
      text at `q`: its own number if it is a `#####` entry, then what follows. */
  lemma LineTargetsAt(s: string, q: nat, count: string, digits: string, b: nat, e: nat)
    requires (count == "#####" || count == "-") && AllDigits(digits) && LaidOut(s, count, digits, b, e)
    requires e < q <= |s|
    requires forall k :: 0 <= k < q ==> s[k] != '\n'
    ensures FindTargets(s) == (if count == "#####" then [DigitsValue(digits)] else [])
      + FindTargetsFrom(s[q..], false)
  {
    if count == "#####" {
      TargetAtLayout(s, digits, b, e);
      assert FindTargets(s) == [DigitsValue(digits)] + FindTargetsFrom(s[e + 1..], false);
      SkipInsideLine(s[e + 1..], q - e - 1);
      assert s[e + 1..][q - e - 1..] == s[q..];
    } else {
      NoTargetAtLayout(s, count, digits, b, e);
      assert FindTargets(s) == FindTargetsFrom(s[1..], false);
      SkipInsideLine(s[1..], q - 1);
      assert s[1..][q - 1..] == s[q..];
    }
  }

  /** `s` begins with entry `x` printed, followed by a line feed or nothing: `q` is where the line ends. */
  predicate EntryLine(s: string, x: GcovLine, q: nat) {
    q <= |s| && s[..q] == FormatLine(x.count, x.lineNo, x.code) && (q == |s| || s[q] == '\n')
  }

  /** What a printed prefix says holds of the whole text. */
  lemma LaidOutPrefix(s: string, q: nat, count: string, digits: string, b: nat, e: nat)
    requires q <= |s| && LaidOut(s[..q], count, digits, b, e)
    ensures LaidOut(s, count, digits, b, e)
  {
    var t := s[..q];
    assert forall k :: 0 <= k < q ==> s[k] == t[k];
    assert s[b - |count|..b] == t[b - |count|..b];
    assert s[e - |digits|..e] == t[e - |digits|..e];
  }

  /** The target numbers of a text that starts with one printed block entry. */
  lemma LineTargets(s: string, x: GcovLine, q: nat)
    requires BlockEntry(x) && EntryLine(s, x, q)
    ensures FindTargets(s) == OwnNumber(x) + FindTargetsFrom(s[q..], false)
  {
    var digits := NatToString(x.lineNo);
    var t := s[..q];
    assert t == FormatFields(x.count, digits, x.code);
    FormatNoNewline(x.count, digits, x.code);
    var b, e := FieldsLayout(x.count, digits, x.code);
    LaidOutPrefix(s, q, x.count, digits, b, e);
    assert forall k :: 0 <= k < q ==> s[k] != '\n' by {
      assert forall k :: 0 <= k < q ==> s[k] == t[k];
    }
    LineTargetsAt(s, q, x.count, digits, b, e);
    DigitsValueOfNatToString(x.lineNo);
  }

  /** Reading the target lines back out of a printed uncovered block gives the line numbers
      of its `#####` entries, in order: `check_lines_coverage` recovers exactly what
      `format_uncovered_block` put in. */
  lemma {:induction false} FindTargetsOfBlock(ub: seq<GcovLine>)
    requires forall i :: 0 <= i < |ub| ==> BlockEntry(ub[i])
    ensures FindTargets(FormatUncoveredBlock(ub)) == UncoveredNumbers(ub)
    decreases |ub|
  {
    if |ub| == 1 {
      SingleEntryTargets(ub);
    } else if |ub| > 1 {
      FirstEntryTargets(ub);
      FindTargetsOfBlock(ub[1..]);
    }
  }

  /** The number the first entry of a block contributes. */
  function OwnNumber(x: GcovLine): seq<nat> {
    if x.count == "#####" then [x.lineNo] else []
  }

  lemma SingleEntryTargets(ub: seq<GcovLine>)
    requires |ub| == 1 && BlockEntry(ub[0])
    ensures FindTargets(FormatUncoveredBlock(ub)) == OwnNumber(ub[0])
  {
    var line := FormatEntries(ub)[0];
    var s := FormatUncoveredBlock(ub);
    assert s == line;
    assert EntryLine(s, ub[0], |line|);
    LineTargets(s, ub[0], |line|);
    assert s[|line|..] == [];
  }

  lemma FirstEntryTargets(ub: seq<GcovLine>)
    requires |ub| > 1 && BlockEntry(ub[0])
    ensures FindTargets(FormatUncoveredBlock(ub)) == OwnNumber(ub[0]) + FindTargets(FormatUncoveredBlock(ub[1..]))
  {
    var parts := FormatEntries(ub);
    var line := parts[0];
    var s := FormatUncoveredBlock(ub);
    var r := FormatUncoveredBlock(ub[1..]);
    assert FormatEntries(ub[1..]) == parts[1..];
    assert s == line + "\n" + r;
    assert EntryLine(s, ub[0], |line|) by {
      assert s[..|line|] == line;
    }
    LineTargets(s, ub[0], |line|);
    var rest := s[|line|..];
    assert rest[0] == '\n' && rest[1..] == r;
    assert FindTargetsFrom(rest, false) == FindTargetsFrom(r, true);
  }
}
