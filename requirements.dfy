/** `parse_requirements` in `main.py`: the coverage goal, the compile options and the target
    basic blocks read from the sections of a summary such as
    `[Coverage Goal] ... [Compile Options] ... [Basic Block 1] ...`. */
module Requirements {
  import opened Wrappers
  import opened Text
  import opened CompileOptions

  datatype Requirements = Requirements(coverageGoal: string, compileOptions: string, targetBlock: string)

  /** What is returned for an empty summary, and what each field holds until a section sets it. */
  const Defaults := Requirements("", "-O2", "")

  /** The two groups of one match of the section pattern, not yet stripped. */
  datatype Section = Section(name: string, content: string)

  // ---------------------------------------------------------------------------------
  // The section pattern `\[([^\]]+)\]\s*[-:]?\s*(.*?)(?=\n\s*\[|\Z)` with `re.DOTALL`
  // ---------------------------------------------------------------------------------

  predicate NotCloseBracket(c: char) {
    c != ']'
  }

  /** `[^\]]+\]` after the `[` at `i`: the position of the `]` that closes a non-empty name. */
  function HeaderEnd(s: string, i: nat): (r: Option<nat>)
    requires i < |s|
    ensures r.Some? ==> i + 1 < r.value < |s| && s[r.value] == ']'
  {
    var p := SpanEnd(s, i + 1, NotCloseBracket);
    if i + 1 < p < |s| then Some(p) else None
  }

  /** The lookahead `(?=\n\s*\[|\Z)` holds at `q`: the end of the text, or a newline after
      which, past any whitespace, the next header opens. */
  predicate HeaderNext(s: string, q: nat)
    requires q <= |s|
  {
    q == |s| || (s[q] == '\n' && SpanEnd(s, q + 1, IsSpace) < |s| && s[SpanEnd(s, q + 1, IsSpace)] == '[')
  }

  /** Where the lazy `(.*?)` that starts at `q` stops: the first position where the lookahead holds. */
  function NextHeader(s: string, q: nat): (r: nat)
    requires q <= |s|
    ensures q <= r <= |s| && HeaderNext(s, r)
    ensures forall k :: q <= k < r ==> !HeaderNext(s, k)
    decreases |s| - q
  {
    if HeaderNext(s, q) then q else NextHeader(s, q + 1)
  }

  /** `\s*[-:]?\s*` from `from`, each part as long as it can be; nothing later in the pattern
      can fail, so no part is ever given back. */
  function SeparatorEnd(s: string, from: nat): (r: nat)
    requires from <= |s|
    ensures from <= r <= |s|
  {
    var a := SpanEnd(s, from, IsSpace);
    var b := if a < |s| && (s[a] == '-' || s[a] == ':') then a + 1 else a;
    SpanEnd(s, b, IsSpace)
  }

  /** The match of the section pattern at `i` and where it ends. As written (`fixed` false)
      the whitespace after a header may run past a newline into the next header, which then
      becomes content; `fixed` stops the section at the first header after its own. */
  function SectionAt(s: string, i: nat, fixed: bool): (r: Option<(Section, nat)>)
    requires i <= |s|
    ensures r.Some? ==> i < r.value.1 <= |s|
  {
    if i < |s| && s[i] == '[' then
      match HeaderEnd(s, i)
      case None => None
      case Some(p) =>
        var (c, q) := ContentSpan(s, p, fixed);
        Some((Section(s[i + 1..p], s[c..q]), q))
    else None
  }

  /** Where the content of a section whose header closes at `p` starts and ends. */
  function ContentSpan(s: string, p: nat, fixed: bool): (r: (nat, nat))
    requires p < |s|
    ensures p < r.0 <= r.1 <= |s|
  {
    var sep := SeparatorEnd(s, p + 1);
    if fixed then
      var q := NextHeader(s, p + 1);
      (if sep <= q then sep else q, q)
    else (sep, NextHeader(s, sep))
  }

  /** `finditer` from position `i`: after a match the search resumes where it ended. */
  function Sections(s: string, i: nat, fixed: bool): seq<Section>
    requires i <= |s|
    decreases |s| - i
  {
    if i == |s| then []
    else match SectionAt(s, i, fixed)
      case Some((sec, e)) => [sec] + Sections(s, e, fixed)
      case None => Sections(s, i + 1, fixed)
  }

  /** A section found at `i` has a non-empty name without `]` right after the `[`, and ends
      where the lookahead holds. With the fix no header begins inside the section, past its
      own `]`. */
  lemma SectionAtMeaning(s: string, i: nat, fixed: bool)
    requires i <= |s|
    ensures SectionAt(s, i, fixed).Some? <==> i < |s| && s[i] == '[' && HeaderEnd(s, i).Some?
    ensures SectionAt(s, i, fixed).Some? ==>
      var (sec, e) := SectionAt(s, i, fixed).value;
      var p := i + 1 + |sec.name|;
      sec.name != [] && p < e && s[i + 1..p] == sec.name && s[p] == ']' && ']' !in sec.name
      && HeaderNext(s, e) && (fixed ==> forall k :: p < k < e ==> !HeaderNext(s, k))
  {
    if i < |s| && s[i] == '[' && HeaderEnd(s, i).Some? {
      var p := HeaderEnd(s, i).value;
      SpanEndRun(s, i + 1, NotCloseBracket);
      var name := s[i + 1..p];
      assert forall k :: 0 <= k < |name| ==> name[k] == s[i + 1 + k];
    }
  }

  // ---------------------------------------------------------------------------------
  // Interpreting the sections
  // ---------------------------------------------------------------------------------

  /** The stripped, lower-cased name the section is recognised by. */
  function Key(sec: Section): string {
    Lower(Strip(sec.name))
  }

  predicate IsGoal(sec: Section) {
    Contains(Key(sec), "coverage goal")
  }

  predicate IsCompile(sec: Section) {
    !IsGoal(sec) && Contains(Key(sec), "compile") && Contains(Key(sec), "option")
  }

  predicate IsBlock(sec: Section) {
    !IsGoal(sec) && !IsCompile(sec) && Contains(Key(sec), "basic block")
  }

  /** The result dictionary and the list of basic-block contents while the loop runs. */
  datatype Reading = Reading(coverageGoal: string, compileOptions: string, blocks: seq<string>)

  /** The compile options a compile-options section sets: its cleaned flags, or `-O2` when
      none are left. */
  function SectionOptions(sec: Section): string {
    var content := Strip(sec.content);
    var opts := if content != "" then CleanCompileOptions(content) else "";
    if opts != "" then opts else "-O2"
  }

  /** One iteration of the loop over the matches. */
  function Step(acc: Reading, sec: Section): Reading {
    if IsGoal(sec) then acc.(coverageGoal := Strip(sec.content))
    else if IsCompile(sec) then acc.(compileOptions := SectionOptions(sec))
    else if IsBlock(sec) then acc.(blocks := acc.blocks + [Strip(sec.content)])
    else acc
  }

  function Read(secs: seq<Section>): Reading
    decreases |secs|
  {
    if secs == [] then Reading("", "-O2", [])
    else Step(Read(secs[..|secs| - 1]), secs[|secs| - 1])
  }

  /** The dictionary once every section is read: the block contents joined by a blank line. */
  function Interpret(secs: seq<Section>): Requirements {
    var acc := Read(secs);
    Requirements(acc.coverageGoal, acc.compileOptions, if acc.blocks != [] then Join("\n\n", acc.blocks) else "")
  }

  /** `parse_requirements`, with a section ending at the first header after its own. */
  function ParseRequirements(summary: string): Requirements {
    if summary == "" then Defaults else Interpret(Sections(summary, 0, true))
  }

  /** `parse_requirements` as written. */
  function ParseRequirementsAsWritten(summary: string): Requirements {
    if summary == "" then Defaults else Interpret(Sections(summary, 0, false))
  }

  /** The contents of the basic-block sections, in order. */
  function BlockContents(secs: seq<Section>): seq<string>
    decreases |secs|
  {
    if secs == [] then []
    else BlockContents(secs[..|secs| - 1]) + if IsBlock(secs[|secs| - 1]) then [Strip(secs[|secs| - 1].content)] else []
  }

  /** The coverage goal is the content of the last coverage-goal section, or empty when
      there is none. */
  lemma ReadGoal(secs: seq<Section>)
    ensures (forall k :: 0 <= k < |secs| ==> !IsGoal(secs[k])) ==> Read(secs).coverageGoal == ""
    ensures forall k :: LastOf(secs, k, IsGoal) ==> Read(secs).coverageGoal == Strip(secs[k].content)
  {
    GoalIsLast(secs);
    LastValueOf(secs, IsGoal, StrippedContent, "");
  }

  function StrippedContent(sec: Section): string {
    Strip(sec.content)
  }

  /** What the sections of kind `p` leave behind when each one overwrites the value: `g` of
      the last of them, or `d` when there is none. */
  function LastValue<T>(secs: seq<Section>, p: Section -> bool, g: Section -> T, d: T): T
    decreases |secs|
  {
    if secs == [] then d
    else if p(secs[|secs| - 1]) then g(secs[|secs| - 1])
    else LastValue(secs[..|secs| - 1], p, g, d)
  }

  lemma {:induction false} LastValueOf<T>(secs: seq<Section>, p: Section -> bool, g: Section -> T, d: T)
    ensures (forall k :: 0 <= k < |secs| ==> !p(secs[k])) ==> LastValue(secs, p, g, d) == d
    ensures forall k :: LastOf(secs, k, p) ==> LastValue(secs, p, g, d) == g(secs[k])
    decreases |secs|
  {
    if secs != [] {
      var n := |secs| - 1;
      var init := secs[..n];
      LastValueOf(init, p, g, d);
      forall k | LastOf(secs, k, p)
        ensures LastValue(secs, p, g, d) == g(secs[k])
      {
        if k < n {
          LastOfInit(secs, k, p);
          assert init[k] == secs[k];
        }
      }
      forall k | 0 <= k < n
        ensures init[k] == secs[k]
      {
      }
    }
  }

  lemma {:induction false} GoalIsLast(secs: seq<Section>)
    ensures Read(secs).coverageGoal == LastValue(secs, IsGoal, StrippedContent, "")
    decreases |secs|
  {
    if secs != [] {
      var n := |secs| - 1;
      GoalIsLast(secs[..n]);
      GoalStep(Read(secs[..n]), secs[n]);
    }
  }

  lemma {:induction false} CompileIsLast(secs: seq<Section>)
    ensures Read(secs).compileOptions == LastValue(secs, IsCompile, SectionOptions, "-O2")
    decreases |secs|
  {
    if secs != [] {
      var n := |secs| - 1;
      CompileIsLast(secs[..n]);
      CompileStep(Read(secs[..n]), secs[n]);
    }
  }

  /** Section `k` is of the kind `p`, and no later one is. */
  predicate LastOf(secs: seq<Section>, k: int, p: Section -> bool) {
    0 <= k < |secs| && p(secs[k]) && forall m :: k < m < |secs| ==> !p(secs[m])
  }

  lemma LastOfInit(secs: seq<Section>, k: int, p: Section -> bool)
    requires LastOf(secs, k, p) && k < |secs| - 1
    ensures LastOf(secs[..|secs| - 1], k, p)
  {
    var init := secs[..|secs| - 1];
    assert forall m :: k <= m < |init| ==> init[m] == secs[m];
  }

  lemma GoalStep(acc: Reading, sec: Section)
    ensures Step(acc, sec).coverageGoal == if IsGoal(sec) then Strip(sec.content) else acc.coverageGoal
  {
  }

  lemma CompileStep(acc: Reading, sec: Section)
    ensures Step(acc, sec).compileOptions == if IsCompile(sec) then SectionOptions(sec) else acc.compileOptions
  {
  }

  lemma BlockStep(acc: Reading, sec: Section)
    ensures Step(acc, sec).blocks == if IsBlock(sec) then acc.blocks + [Strip(sec.content)] else acc.blocks
  {
  }

  /** The compile options are those of the last compile-options section. */
  lemma ReadCompile(secs: seq<Section>)
    ensures forall k :: LastOf(secs, k, IsCompile) ==> Read(secs).compileOptions == SectionOptions(secs[k])
  {
    CompileIsLast(secs);
    LastValueOf(secs, IsCompile, SectionOptions, "-O2");
  }

  /** The compile options are `-O2` when no section sets them, and never empty. */
  lemma {:induction false} ReadCompileDefault(secs: seq<Section>)
    ensures (forall k :: 0 <= k < |secs| ==> !IsCompile(secs[k])) ==> Read(secs).compileOptions == "-O2"
    ensures Read(secs).compileOptions != ""
    decreases |secs|
  {
    if secs != [] {
      var n := |secs| - 1;
      var init := secs[..n];
      ReadCompileDefault(init);
      assert Read(secs) == Step(Read(init), secs[n]);
      CompileStep(Read(init), secs[n]);
      if forall k :: 0 <= k < |secs| ==> !IsCompile(secs[k]) {
        assert !IsCompile(secs[n]);
        forall k | 0 <= k < n
          ensures !IsCompile(init[k])
        {
          assert init[k] == secs[k];
        }
      }
    }
  }

  /** Every basic-block section is kept, in order. */
  lemma {:induction false} ReadBlocks(secs: seq<Section>)
    ensures Read(secs).blocks == BlockContents(secs)
    decreases |secs|
  {
    if secs != [] {
      var n := |secs| - 1;
      ReadBlocks(secs[..n]);
      BlockStep(Read(secs[..n]), secs[n]);
    }
  }

  /** An empty summary gives the defaults; otherwise the fields are read from the sections
      found, and the target block is the basic-block contents joined by a blank line. */
  lemma ParseRequirementsMeaning(summary: string)
    ensures summary == "" ==> ParseRequirements(summary) == Requirements("", "-O2", "")
    ensures ParseRequirements(summary).compileOptions != ""
    ensures summary != "" ==>
      ParseRequirements(summary).targetBlock == Join("\n\n", BlockContents(Sections(summary, 0, true)))
  {
    if summary != "" {
      ReadCompileDefault(Sections(summary, 0, true));
      ReadBlocks(Sections(summary, 0, true));
    }
  }

  /** The same holds of `parse_requirements` as written: only the sections it finds differ. */
  lemma ParseRequirementsAsWrittenMeaning(summary: string)
    ensures summary == "" ==> ParseRequirementsAsWritten(summary) == Requirements("", "-O2", "")
    ensures ParseRequirementsAsWritten(summary).compileOptions != ""
    ensures summary != "" ==>
      ParseRequirementsAsWritten(summary).targetBlock == Join("\n\n", BlockContents(Sections(summary, 0, false)))
  {
    if summary != "" {
      ReadCompileDefault(Sections(summary, 0, false));
      ReadBlocks(Sections(summary, 0, false));
    }
  }

  // ---------------------------------------------------------------------------------
  // An empty section swallows the next header
  // ---------------------------------------------------------------------------------

  /** A header with nothing after it but a newline and the next header: as written, the
      whitespace after the first `]` crosses the newline, so the second header becomes the
      content of the first section and is never read as a section; the lookahead held right
      after the first `]`. With the fix the first section is empty and the second is read. */
  lemma EmptySectionSwallowsNext(n: string, m: string, rest: string)
    requires n != "" && ']' !in n
    requires m != "" && ']' !in m && '\n' !in m && '\n' !in rest
    ensures var s := "[" + n + "]\n[" + m + "]" + rest;
      HeaderNext(s, |n| + 2) && |n| + 2 < |s|
      && Sections(s, 0, false) == [Section(n, "[" + m + "]" + rest)]
      && Sections(s, 0, true) == [Section(n, ""), Section(m, rest[SeparatorEnd(rest, 0)..])]
  {
    var s := "[" + n + "]\n[" + m + "]" + rest;
    TwoHeaders(n, m, rest);
    SwallowedAsWritten(s, n, m, rest);
    SplitWhenFixed(s, n, m, rest);
  }

  /** Where the characters of the two-header text are. */
  lemma TwoHeaders(n: string, m: string, rest: string)
    ensures var s := "[" + n + "]\n[" + m + "]" + rest; var p := |n| + 1; var p2 := p + 3 + |m|;
      |s| == p2 + 1 + |rest| && s[0] == '[' && s[p] == ']' && s[p + 1] == '\n' && s[p + 2] == '['
      && s[p2] == ']' && s[1..p] == n && s[p + 3..p2] == m && s[p + 2..] == "[" + m + "]" + rest
      && s == s[..p2 + 1] + rest
  {
  }

  /** As written: one section, from the first header to the end. */
  lemma SwallowedAsWritten(s: string, n: string, m: string, rest: string)
    requires n != "" && ']' !in n && '\n' !in m && '\n' !in rest
    requires var p := |n| + 1; var p2 := p + 3 + |m|;
      |s| == p2 + 1 + |rest| && s[0] == '[' && s[p] == ']' && s[p + 1] == '\n' && s[p + 2] == '['
      && s[p2] == ']' && s[1..p] == n && s[p + 3..p2] == m && s[p + 2..] == "[" + m + "]" + rest
    ensures HeaderNext(s, |n| + 2)
    ensures Sections(s, 0, false) == [Section(n, "[" + m + "]" + rest)]
  {
    var p := |n| + 1;
    HeaderEndOf(s, 0, n);
    SpanEndExact(s, p + 1, p + 2, IsSpace);
    SpanEndExact(s, p + 2, p + 2, IsSpace);
    assert SeparatorEnd(s, p + 1) == p + 2;
    forall k | p + 2 <= k < |s|
      ensures !HeaderNext(s, k)  || k == |s|
    {
      assert s[k] == s[p + 2..][k - p - 2];
      assert s[k] != '\n';
    }
    assert NextHeader(s, p + 2) == |s|;
    assert s[p + 2..|s|] == "[" + m + "]" + rest;
    assert SectionAt(s, 0, false) == Some((Section(s[1..p], s[p + 2..|s|]), |s|));
    assert Sections(s, |s|, false) == [];
  }

  /** With the fix: an empty first section, then the second one. */
  lemma SplitWhenFixed(s: string, n: string, m: string, rest: string)
    requires n != "" && ']' !in n && m != "" && ']' !in m && '\n' !in m && '\n' !in rest
    requires var p := |n| + 1; var p2 := p + 3 + |m|;
      |s| == p2 + 1 + |rest| && s[0] == '[' && s[p] == ']' && s[p + 1] == '\n' && s[p + 2] == '['
      && s[p2] == ']' && s[1..p] == n && s[p + 3..p2] == m && s[p + 2..] == "[" + m + "]" + rest
      && s == s[..p2 + 1] + rest
    ensures Sections(s, 0, true) == [Section(n, ""), Section(m, rest[SeparatorEnd(rest, 0)..])]
  {
    var p := |n| + 1;
    FixedFirst(s, n, m, rest);
    var p2 := p + 3 + |m|;
    forall k | p2 < k < |s|
      ensures s[k] != '\n'
    {
      assert s[k] == s[p + 2..][k - p - 2];
    }
    FixedSecond(s, n, m, rest);
    assert Sections(s, 0, true) == [Section(n, "")] + Sections(s, p + 1, true);
    assert Sections(s, p + 1, true) == Sections(s, p + 2, true);
    assert Sections(s, |s|, true) == [];
  }

  lemma FixedFirst(s: string, n: string, m: string, rest: string)
    requires n != "" && ']' !in n
    requires var p := |n| + 1; var p2 := p + 3 + |m|;
      |s| == p2 + 1 + |rest| && s[0] == '[' && s[p] == ']' && s[p + 1] == '\n' && s[p + 2] == '['
      && s[1..p] == n
    ensures SectionAt(s, 0, true) == Some((Section(n, ""), |n| + 2))
    ensures SectionAt(s, |n| + 2, true) == None
  {
    var p := |n| + 1;
    HeaderEndOf(s, 0, n);
    SpanEndExact(s, p + 2, p + 2, IsSpace);
    assert HeaderNext(s, p + 1);
    assert NextHeader(s, p + 1) == p + 1;
    assert s[p + 1..p + 1] == "";
    assert SectionAt(s, 0, true) == Some((Section(s[1..p], s[p + 1..p + 1]), p + 1));
  }

  lemma FixedSecond(s: string, n: string, m: string, rest: string)
    requires m != "" && ']' !in m
    requires var p := |n| + 1; var p2 := p + 3 + |m|;
      |s| == p2 + 1 + |rest| && s[p + 2] == '[' && s[p2] == ']' && s[p + 3..p2] == m
      && s == s[..p2 + 1] + rest && forall k :: p2 < k < |s| ==> s[k] != '\n'
    ensures SectionAt(s, |n| + 3, true) == Some((Section(m, rest[SeparatorEnd(rest, 0)..]), |s|))
  {
    var p := |n| + 1;
    var p2 := p + 3 + |m|;
    HeaderEndOf(s, p + 2, m);
    var sep := SeparatorFrom(s, p2 + 1, rest);
    NoHeaderAhead(s, p2 + 1);
    FixedSectionAt(s, p + 2, p2, sep, |s|);
  }

  /** A non-empty name without `]` between the `[` at `i` and a `]`: the header ends there. */
  lemma HeaderEndOf(s: string, i: nat, name: string)
    requires i + |name| + 1 < |s| && name != [] && ']' !in name
    requires s[i + 1..i + 1 + |name|] == name && s[i + 1 + |name|] == ']'
    ensures HeaderEnd(s, i) == Some(i + 1 + |name|)
  {
    var p := i + 1 + |name|;
    forall k | i + 1 <= k < p
      ensures NotCloseBracket(s[k])
    {
      assert s[k] == name[k - i - 1];
    }
    SpanEndExact(s, i + 1, p, NotCloseBracket);
  }

  /** The fixed section at `i` once its header end, separator end and content end are known. */
  lemma FixedSectionAt(s: string, i: nat, p: nat, sep: nat, q: nat)
    requires i < |s| && s[i] == '[' && HeaderEnd(s, i) == Some(p)
    requires SeparatorEnd(s, p + 1) == sep && NextHeader(s, p + 1) == q && sep <= q
    ensures SectionAt(s, i, true) == Some((Section(s[i + 1..p], s[sep..q]), q))
  {
    assert ContentSpan(s, p, true) == (sep, q);
  }

  /** The separator after a prefix, read in the text that follows it. */
  lemma SeparatorFrom(s: string, at: nat, rest: string) returns (sep: nat)
    requires at <= |s| && s == s[..at] + rest
    ensures sep == SeparatorEnd(s, at) && s[sep..|s|] == rest[SeparatorEnd(rest, 0)..]
  {
    SeparatorShift(s[..at], rest);
    sep := SeparatorEnd(s, at);
    var x := SeparatorEnd(rest, 0);
    assert sep == at + x;
    assert forall k :: 0 <= k < |rest| - x ==> s[sep..|s|][k] == s[at + x + k] == rest[x + k];
  }

  /** Without a newline ahead the lazy content runs to the end. */
  lemma NoHeaderAhead(s: string, q: nat)
    requires q <= |s| && forall k :: q <= k < |s| ==> s[k] != '\n'
    ensures NextHeader(s, q) == |s|
  {
  }

  /** The separator scan only looks forward, so text in front shifts it. */
  lemma SeparatorShift(pre: string, rest: string)
    ensures SeparatorEnd(pre + rest, |pre|) == |pre| + SeparatorEnd(rest, 0)
  {
    var s := pre + rest;
    SpanEndShift(pre, rest, 0, IsSpace);
    var a := SpanEnd(rest, 0, IsSpace);
    assert a < |rest| ==> s[|pre| + a] == rest[a];
    var b := if a < |rest| && (rest[a] == '-' || rest[a] == ':') then a + 1 else a;
    SpanEndShift(pre, rest, b, IsSpace);
  }

  /** The summary `[Coverage Goal]`, newline, `[Basic Block 1] - loop`: as written the coverage
      goal is the second header line and no target block is found; with the fix the coverage
      goal is empty and the target block is `loop`. */
  lemma EmptyGoalExample()
    ensures ParseRequirementsAsWritten("[Coverage Goal]\n[Basic Block 1] - loop")
      == Requirements("[Basic Block 1] - loop", "-O2", "")
    ensures ParseRequirements("[Coverage Goal]\n[Basic Block 1] - loop")
      == Requirements("", "-O2", "loop")
  {
    ExampleSections("[Coverage Goal]\n[Basic Block 1] - loop", "Coverage Goal", "Basic Block 1", " - loop");
    ExampleAsWritten([Section("Coverage Goal", "[Basic Block 1] - loop")]);
    ExampleFixed(Section("Coverage Goal", ""), Section("Basic Block 1", "loop"));
  }

  lemma ExampleSections(text: string, n: string, m: string, rest: string)
    requires text == "[Coverage Goal]\n[Basic Block 1] - loop"
    requires n == "Coverage Goal" && m == "Basic Block 1" && rest == " - loop"
    ensures Sections(text, 0, false) == [Section("Coverage Goal", "[Basic Block 1] - loop")]
    ensures Sections(text, 0, true) == [Section("Coverage Goal", ""), Section("Basic Block 1", "loop")]
  {
    ExampleText();
    EmptySectionSwallowsNext(n, m, rest);
    SeparatorExample();
    assert rest[3..] == "loop";
    SecondHeaderText();
  }

  lemma ExampleText()
    ensures "[Coverage Goal]\n[Basic Block 1] - loop"
      == "[" + "Coverage Goal" + "]\n[" + "Basic Block 1" + "]" + " - loop"
  {
    HeadText();
    TailText();
  }

  lemma HeadText()
    ensures "[" + "Coverage Goal" + "]\n[" == "[Coverage Goal]\n["
  {
  }

  lemma TailText()
    ensures "Basic Block 1" + "]" + " - loop" == "Basic Block 1] - loop"
  {
  }

  lemma SecondHeaderText()
    ensures "[" + "Basic Block 1" + "]" + " - loop" == "[Basic Block 1] - loop"
  {
  }

  lemma ExampleAsWritten(secs: seq<Section>)
    requires secs == [Section("Coverage Goal", "[Basic Block 1] - loop")]
    ensures Interpret(secs) == Requirements("[Basic Block 1] - loop", "-O2", "")
  {
    var goal := secs[0];
    assert IsGoal(goal) by { GoalName(goal); }
    SwallowedStripped();
    ReadOne(goal);
  }

  lemma SwallowedStripped()
    ensures Strip("[Basic Block 1] - loop") == "[Basic Block 1] - loop"
  {
    StripNoSpaceEnds("[Basic Block 1] - loop");
  }

  lemma ExampleFixed(goal: Section, block: Section)
    requires goal.name == "Coverage Goal" && goal.content == ""
    requires block.name == "Basic Block 1" && block.content == "loop"
    ensures Interpret([goal, block]) == Requirements("", "-O2", "loop")
  {
    assert IsGoal(goal) by { GoalName(goal); }
    assert IsBlock(block) by { BlockName(block); }
    LoopStripped();
    GoalThenBlock(goal, block);
  }

  lemma LoopStripped()
    ensures Strip("loop") == "loop"
  {
    StripNoSpaceEnds("loop");
  }

  lemma ReadOne(a: Section)
    ensures Read([a]) == Step(Reading("", "-O2", []), a)
  {
    assert [a][..0] == [];
  }

  lemma ReadTwo(a: Section, b: Section)
    ensures Read([a, b]) == Step(Step(Reading("", "-O2", []), a), b)
  {
    assert [a, b][..1] == [a];
    ReadOne(a);
  }

  /** An empty goal section, then a basic-block section whose content is already stripped. */
  lemma GoalThenBlock(goal: Section, block: Section)
    requires IsGoal(goal) && goal.content == [] && IsBlock(block) && Strip(block.content) == block.content
    ensures Interpret([goal, block]) == Requirements("", "-O2", block.content)
  {
    ReadTwo(goal, block);
    var init := Reading("", "-O2", []);
    var first := Step(init, goal);
    GoalStep(init, goal);
    CompileStep(init, goal);
    BlockStep(init, goal);
    StripNoSpaceEnds(goal.content);
    GoalStep(first, block);
    CompileStep(first, block);
    BlockStep(first, block);
  }

  lemma SeparatorExample()
    ensures SeparatorEnd(" - loop", 0) == 3
  {
    var rest := " - loop";
    SpanEndExact(rest, 0, 1, IsSpace);
    SpanEndExact(rest, 2, 3, IsSpace);
  }

  /** A section named `Coverage Goal` sets the coverage goal. */
  lemma GoalName(sec: Section)
    requires sec.name == "Coverage Goal"
    ensures IsGoal(sec)
  {
    var key := "coverage goal";
    KeyOfName(sec.name, key);
    assert Key(sec) == key;
    ContainsSelf(key);
  }

  lemma ContainsSelf(s: string)
    ensures Contains(s, s)
  {
    assert s[..|s|] == s;
  }

  lemma KeyOfName(name: string, key: string)
    requires name != [] && !IsSpace(name[0]) && !IsSpace(name[|name| - 1])
    requires |key| == |name| && forall k :: 0 <= k < |name| ==> key[k] == LowerChar(name[k])
    ensures forall content :: Key(Section(name, content)) == key
  {
    StripNoSpaceEnds(name);
    assert Lower(name) == key;
  }

  /** A section named `Basic Block 1` is a basic-block section. */
  lemma BlockName(sec: Section)
    requires sec.name == "Basic Block 1"
    ensures IsBlock(sec)
  {
    var key := "basic block 1";
    KeyOfName(sec.name, key);
    assert Key(sec) == key;
    BlockKey();
  }

  lemma BlockKey()
    ensures !Contains("basic block 1", "coverage goal")
    ensures !Contains("basic block 1", "option")
    ensures Contains("basic block 1", "basic block")
  {
    NotCoverageGoal();
    NotOption();
    var key := "basic block 1";
    ContainsAt(key, "basic block");
    assert key[0..11] == "basic block";
    assert OccursAt(key, "basic block", 0);
  }

  lemma NotCoverageGoal()
    ensures !Contains("basic block 1", "coverage goal")
  {
    var key := "basic block 1";
    ContainsAt(key, "coverage goal");
    assert key[0] != "coverage goal"[0];
    assert !OccursAt(key, "coverage goal", 0);
  }

  lemma NotOption()
    ensures !Contains("basic block 1", "option")
  {
    ContainsAt("basic block 1", "option");
    NoOptionIn("basic block 1");
  }

  lemma NoOptionIn(key: string)
    requires key == "basic block 1"
    ensures forall k :: !OccursAt(key, "option", k)
  {
    forall k
      ensures !OccursAt(key, "option", k)
    {
      if 0 <= k <= |key| - 6 {
        assert key[k..k + 6][0] == key[k];
        if k < 4 {
          assert key[k] in "basi";
        } else {
          assert key[k] in "c bl";
        }
      }
    }
  }
}
