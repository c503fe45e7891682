/** `UncoveredBlockAnalyzer` in `algorithm/uncovered_analyzer.py`: reads a gcov file and
    groups runs of never-executed code lines into blocks, each with a bounded amount of
    executed code around it as context. */
module UncoveredAnalyzer {
  import opened Wrappers
  import opened Text
  import opened GcovLines

  /** `context_limit` when the caller gives none. */
  const DEFAULT_CONTEXT_LIMIT: int := 20

  /** One saved block: the executed lines around it (`None` when there are none), its
      lines, and the number of never-executed code lines among them. */
  datatype Block = Block(context: Option<seq<GcovLine>>, uncovered: seq<GcovLine>, size: nat)

  // ---------------------------------------------------------------- line classes

  /** A source text that is only a comment once trimmed: it starts with two slashes, with a
      slash and a star, or with a star. */
  predicate IsPureComment(code: string) {
    var s := Strip(code);
    StartsWith(s, "//") || StartsWith(s, "/*") || StartsWith(s, "*")
  }

  /** A source text with something in it that is not a comment. */
  predicate IsCodeLine(code: string) {
    Strip(code) != "" && !IsPureComment(code)
  }

  /** An executed code line: an execution count and real code. */
  predicate IsCovered(count: string, code: string) {
    AllDigits(count) && IsCodeLine(code)
  }

  /** A never-executed code line: count `#####` and real code. */
  predicate IsUncoveredExec(count: string, code: string) {
    count == "#####" && IsCodeLine(code)
  }

  /** A line gcov marks as not executable. */
  predicate IsNeutral(count: string) {
    count == "-"
  }

  predicate IsExecEntry(e: GcovLine) {
    IsUncoveredExec(e.count, e.code)
  }

  predicate IsCoveredEntry(e: GcovLine) {
    IsCovered(e.count, e.code)
  }

  /** An entry that ends an open block: neither never-executed code nor neutral. */
  predicate Closes(e: GcovLine) {
    !IsExecEntry(e) && !IsNeutral(e.count)
  }

  /** The three classes are disjoint, and a comment is never code. */
  lemma ClassesDisjoint(count: string, code: string)
    ensures !(IsCovered(count, code) && IsUncoveredExec(count, code))
    ensures !(IsCovered(count, code) && IsNeutral(count))
    ensures !(IsUncoveredExec(count, code) && IsNeutral(count))
    ensures IsPureComment(code) ==> !IsCovered(count, code) && !IsUncoveredExec(count, code)
  {
    if IsCovered(count, code) {
      assert IsDigit(count[0]);
    }
  }

  /** What the comment test accepts, character by character on the trimmed text. */
  lemma PureCommentChars(code: string)
    ensures var s := Strip(code);
      IsPureComment(code) <==> |s| > 0 && (s[0] == '*' || (s[0] == '/' && |s| > 1 && (s[1] == '/' || s[1] == '*')))
  {
    var s := Strip(code);
    if |s| > 1 && s[0] == '/' && (s[1] == '/' || s[1] == '*') {
      assert s[..2] == [s[0], s[1]];
    }
  }

  // ---------------------------------------------------------------- reading the file

  /** One line of the file as the analyzer reads it (pattern
      `^\s*([#\-\d]+):\s*(\d+):(.*)$`, no space allowed before the colons), count stripped. */
  function EntryOf(line: string): (r: seq<GcovLine>)
    ensures |r| <= 1
  {
    match MatchLine(line, false)
    case None => []
    case Some(g) => [GcovLine(Strip(g.count), g.lineNo, g.code)]
  }

  /** The entries of a file: its matching lines, in order. */
  function Entries(lines: seq<string>): (r: seq<GcovLine>)
    ensures |r| <= |lines|
    decreases |lines|
  {
    if lines == [] then [] else Entries(lines[..|lines| - 1]) + EntryOf(lines[|lines| - 1])
  }

  /** Entries as gcov prints them, one per line. */
  function Printed(ub: seq<GcovLine>): (lines: seq<string>)
    ensures |lines| == |ub|
  {
    seq(|ub|, i requires 0 <= i < |ub| => FormatLine(ub[i].count, ub[i].lineNo, ub[i].code) + "\n")
  }

  /** Reading printed entries back gives the same entries. */
  lemma {:induction false} EntriesOfPrinted(ub: seq<GcovLine>)
    requires forall i :: 0 <= i < |ub| ==> IsCountText(ub[i].count) && '\n' !in ub[i].code
    ensures Entries(Printed(ub)) == ub
    decreases |ub|
  {
    if ub != [] {
      var k := |ub| - 1;
      var x := ub[k];
      var line := FormatLine(x.count, x.lineNo, x.code) + "\n";
      PrintedSnoc(ub);
      EntriesOfPrinted(ub[..k]);
      EntriesSnoc(Printed(ub[..k]), line);
      MatchFormatted(x.count, x.lineNo, x.code, false, "\n");
      StripCount(x.count);
      assert EntryOf(line) == [x];
      SnocLast(ub);
    }
  }

  lemma PrintedSnoc(ub: seq<GcovLine>)
    requires ub != []
    ensures var x := ub[|ub| - 1];
      Printed(ub) == Printed(ub[..|ub| - 1]) + [FormatLine(x.count, x.lineNo, x.code) + "\n"]
  {
    var n := |ub| - 1;
    var p, q := Printed(ub), Printed(ub[..n]);
    forall i | 0 <= i < n
      ensures p[i] == q[i]
    {
      assert ub[..n][i] == ub[i];
    }
    assert p == q + [p[n]];
  }

  lemma EntriesSnoc(lines: seq<string>, line: string)
    ensures Entries(lines + [line]) == Entries(lines) + EntryOf(line)
  {
    assert (lines + [line])[..|lines|] == lines;
  }

  lemma EntriesWhole(lines: seq<string>)
    ensures Entries(lines[..|lines|]) == Entries(lines)
  {
    assert lines[..|lines|] == lines;
  }

  lemma EntriesPrefix(lines: seq<string>, i: nat)
    requires i < |lines|
    ensures Entries(lines[..i + 1]) == Entries(lines[..i]) + EntryOf(lines[i])
  {
    assert lines[..i + 1][..i] == lines[..i];
  }

  lemma SnocLast<T>(s: seq<T>)
    requires s != []
    ensures s == s[..|s| - 1] + [s[|s| - 1]]
  {
  }

  // ---------------------------------------------------------------- context

  /** The executed code lines of `s`, in order. */
  function CoveredOnly(s: seq<GcovLine>): (r: seq<GcovLine>)
    ensures |r| <= |s|
  {
    if s == [] then [] else (if IsCoveredEntry(s[0]) then [s[0]] else []) + CoveredOnly(s[1..])
  }

  /** `CoveredOnly` keeps only executed code lines, and only lines of its input. */
  lemma {:induction false} CoveredOnlyCovered(s: seq<GcovLine>)
    ensures forall x :: x in CoveredOnly(s) ==> x in s && IsCoveredEntry(x)
    decreases |s|
  {
    if s != [] {
      CoveredOnlyCovered(s[1..]);
    }
  }

  lemma {:induction false} CoveredOnlyConcat(a: seq<GcovLine>, b: seq<GcovLine>)
    ensures CoveredOnly(a + b) == CoveredOnly(a) + CoveredOnly(b)
    decreases |a|
  {
    if a == [] {
      assert a + b == b;
    } else {
      var t := a[1..];
      assert a == [a[0]] + t && a + b == [a[0]] + (t + b);
      CoveredOnlyConcat(t, b);
      CoveredOnlyCons(a[0], t + b);
      CoveredOnlyCons(a[0], t);
    }
  }

  lemma CoveredOnlyCons(x: GcovLine, s: seq<GcovLine>)
    ensures CoveredOnly([x] + s) == (if IsCoveredEntry(x) then [x] else []) + CoveredOnly(s)
  {
    assert ([x] + s)[0] == x && ([x] + s)[1..] == s;
  }

  /** The last `n` elements, or all of them when there are fewer. */
  function LastN<T>(s: seq<T>, n: int): (r: seq<T>)
    ensures |r| <= |s| && r == s[|s| - |r|..]
    ensures |r| == if n <= 0 then 0 else if n < |s| then n else |s|
  {
    if n <= 0 then [] else if n >= |s| then s else s[|s| - n..]
  }

  /** The first `n` elements, or all of them when there are fewer. */
  function FirstN<T>(s: seq<T>, n: int): (r: seq<T>)
    ensures |r| <= |s| && r == s[..|r|]
    ensures |r| == if n <= 0 then 0 else if n < |s| then n else |s|
  {
    if n <= 0 then [] else if n >= |s| then s else s[..n]
  }

  /** The context of the block from `start` to `end`: the last `limit` executed code lines
      before it and the first `limit` after it, in file order. */
  function Context(entries: seq<GcovLine>, limit: int, start: nat, end: int): seq<GcovLine>
    requires start <= |entries| && -1 <= end < |entries|
  {
    LastN(CoveredOnly(entries[..start]), limit) + FirstN(CoveredOnly(entries[end + 1..]), limit)
  }

  /** An empty context is stored as `None`. */
  function ContextOpt(ctx: seq<GcovLine>): (r: Option<seq<GcovLine>>)
    ensures r.None? <==> ctx == []
    ensures r.Some? ==> r.value == ctx
  {
    if ctx == [] then None else Some(ctx)
  }

  /** At most `limit` lines on each side, all executed code, and nothing at all with a
      limit of zero or below. */
  lemma ContextBounds(entries: seq<GcovLine>, limit: int, start: nat, end: int)
    requires start <= |entries| && -1 <= end < |entries|
    ensures var before := LastN(CoveredOnly(entries[..start]), limit);
      var after := FirstN(CoveredOnly(entries[end + 1..]), limit);
      && Context(entries, limit, start, end) == before + after
      && |before| <= (if limit < 0 then 0 else limit) && |after| <= (if limit < 0 then 0 else limit)
      && (forall x :: x in before ==> x in entries[..start] && IsCoveredEntry(x))
      && (forall x :: x in after ==> x in entries[end + 1..] && IsCoveredEntry(x))
  {
    var cb := CoveredOnly(entries[..start]);
    var ca := CoveredOnly(entries[end + 1..]);
    var before := LastN(cb, limit);
    var after := FirstN(ca, limit);
    CoveredOnlyCovered(entries[..start]);
    CoveredOnlyCovered(entries[end + 1..]);
    forall x | x in before
      ensures x in cb
    {
      var i :| 0 <= i < |before| && before[i] == x;
      assert x == cb[|cb| - |before| + i];
    }
    forall x | x in after
      ensures x in ca
    {
      var i :| 0 <= i < |after| && after[i] == x;
      assert x == ca[i];
    }
  }

  /** The context is missing only when there is no executed code line anywhere around the
      block within reach, or the limit is zero or below. */
  lemma ContextNoneIff(entries: seq<GcovLine>, limit: int, start: nat, end: int)
    requires start <= |entries| && -1 <= end < |entries|
    ensures ContextOpt(Context(entries, limit, start, end)).None? <==>
      limit <= 0 || (CoveredOnly(entries[..start]) == [] && CoveredOnly(entries[end + 1..]) == [])
  {
  }

  /** `s` reversed. */
  function Reverse<T>(s: seq<T>): (r: seq<T>)
    ensures |r| == |s|
  {
    if s == [] then [] else [s[|s| - 1]] + Reverse(s[..|s| - 1])
  }

  lemma ReverseSnoc<T>(s: seq<T>, x: T)
    ensures Reverse(s + [x]) == [x] + Reverse(s)
  {
    assert (s + [x])[..|s|] == s;
  }

  /** With at least `|y|` wanted from the end, a tail of exactly that length is what is taken. */
  lemma LastNOfTail<T>(x: seq<T>, y: seq<T>, n: int)
    requires n == |y|
    ensures LastN(x + y, n) == y
  {
    if n > 0 {
      assert (x + y)[|x + y| - n..] == y;
    }
  }

  lemma FirstNOfHead<T>(x: seq<T>, y: seq<T>, n: int)
    requires n == |x|
    ensures FirstN(x + y, n) == x
  {
    if n > 0 {
      assert (x + y)[..n] == x;
    }
  }

  /** One step of the backward walk: the entry at `i` is put in front of what was
      collected (the collection is kept reversed). */
  lemma BeforeStep(es: seq<GcovLine>, i: nat, start: nat, before: seq<GcovLine>)
    requires i < start <= |es|
    requires Reverse(before) == CoveredOnly(es[i + 1..start])
    ensures Reverse(if IsCoveredEntry(es[i]) then before + [es[i]] else before) == CoveredOnly(es[i..start])
  {
    assert es[i..start] == [es[i]] + es[i + 1..start];
    ReverseSnoc(before, es[i]);
  }

  lemma PrefixSplit<T>(s: seq<T>, j: nat, k: nat)
    requires j <= k <= |s|
    ensures s[..k] == s[..j] + s[j..k]
  {
  }

  /** When the backward walk stops, it has the last `limit` executed lines before `start`. */
  lemma BeforeDone(es: seq<GcovLine>, start: nat, i: int, collected: seq<GcovLine>, limit: int)
    requires -1 <= i < start <= |es|
    requires Reverse(collected) == CoveredOnly(es[i + 1..start])
    requires |collected| <= limit || (collected == [] && i == start - 1)
    requires !(i >= 0 && |collected| < limit)
    ensures Reverse(collected) == LastN(CoveredOnly(es[..start]), limit)
  {
    var head, tail := es[..i + 1], es[i + 1..start];
    assert CoveredOnly(es[..start]) == CoveredOnly(head) + CoveredOnly(tail) by {
      PrefixSplit(es, i + 1, start);
      CoveredOnlyConcat(head, tail);
    }
    if limit <= 0 {
      assert collected == [];
    } else if i >= 0 {
      LastNOfTail(CoveredOnly(head), Reverse(collected), limit);
    } else {
      assert head == [];
    }
  }

  /** One step of the forward walk. */
  lemma AfterStep(es: seq<GcovLine>, end: int, i: nat, after: seq<GcovLine>, next: seq<GcovLine>)
    requires -1 <= end && end + 1 <= i < |es|
    requires after == CoveredOnly(es[end + 1..i])
    requires next == if IsCoveredEntry(es[i]) then after + [es[i]] else after
    ensures next == CoveredOnly(es[end + 1..i + 1])
  {
    assert es[end + 1..i + 1] == es[end + 1..i] + [es[i]];
    CoveredOnlyConcat(es[end + 1..i], [es[i]]);
  }

  /** When the forward walk stops, it has the first `limit` executed lines after `end`. */
  lemma AfterDone(es: seq<GcovLine>, end: int, i: int, after: seq<GcovLine>, limit: int)
    requires -1 <= end && end + 1 <= i <= |es|
    requires after == CoveredOnly(es[end + 1..i])
    requires |after| <= limit || after == []
    requires !(i < |es| && |after| < limit)
    ensures after == FirstN(CoveredOnly(es[end + 1..]), limit)
  {
    CoveredOnlyConcat(es[end + 1..i], es[i..]);
    assert es[end + 1..] == es[end + 1..i] + es[i..];
    if limit <= 0 {
      assert after == [];
    } else if i < |es| {
      FirstNOfHead(after, CoveredOnly(es[i..]), limit);
    } else {
      assert es[i..] == [];
    }
  }

  // ---------------------------------------------------------------- the scan

  /** Whether each entry is never-executed code, in order. */
  function ExecMarks(entries: seq<GcovLine>): (r: seq<bool>)
    ensures |r| == |entries|
  {
    seq(|entries|, i requires 0 <= i < |entries| => IsExecEntry(entries[i]))
  }

  lemma ExecMarksAt(entries: seq<GcovLine>, i: nat)
    requires i < |entries|
    ensures ExecMarks(entries)[i] == IsExecEntry(entries[i])
  {
  }

  /** The loop variables of `parse` after some entries: whether a block is open, where it
      started, its lines, its count of never-executed code lines, and the blocks saved. */
  datatype ScanState = ScanState(inBlock: bool, start: nat, cur: seq<GcovLine>, size: nat, blocks: seq<Block>)

  /** What is stored as the context of the block from one line to another (both included). */
  type ContextFn = (nat, int) -> Option<seq<GcovLine>>

  /** The analyzer's contexts: `Context`, `None` when it is empty. */
  function StoredContext(entries: seq<GcovLine>, limit: int): ContextFn {
    (start: nat, end: int) =>
      if start <= |entries| && -1 <= end < |entries| then ContextOpt(Context(entries, limit, start, end)) else None
  }

  /** One entry of the scan, `ms` telling which entries are never-executed code:
      never-executed code opens a block or extends the open one and counts; a neutral line
      extends an open block without counting; anything else closes the open block, which
      is saved with the previous entry as its end. */
  function ScanStep(entries: seq<GcovLine>, ms: seq<bool>, cx: ContextFn, st: ScanState, idx: nat): (r: ScanState)
    requires idx < |entries| == |ms| && (st.inBlock ==> st.start < idx)
    ensures r.inBlock ==> r.start <= idx
  {
    var e := entries[idx];
    if ms[idx] then
      if !st.inBlock then ScanState(true, idx, [e], 1, st.blocks)
      else st.(cur := st.cur + [e], size := st.size + 1)
    else if st.inBlock && IsNeutral(e.count) then st.(cur := st.cur + [e])
    else if st.inBlock then
      ScanState(false, 0, [], 0, st.blocks + [Block(cx(st.start, idx - 1), st.cur, st.size)])
    else st
  }

  /** The loop variables after the first `n` entries. */
  function Scan(entries: seq<GcovLine>, ms: seq<bool>, cx: ContextFn, n: nat): (r: ScanState)
    requires n <= |entries| == |ms|
    ensures r.inBlock ==> r.start < n
  {
    if n == 0 then ScanState(false, 0, [], 0, [])
    else ScanStep(entries, ms, cx, Scan(entries, ms, cx, n - 1), n - 1)
  }

  // One entry of the scan over a file's own marks, one lemma per branch of `parse`.

  lemma StepExec(entries: seq<GcovLine>, ms: seq<bool>, cx: ContextFn, st: ScanState, idx: nat)
    requires ms == ExecMarks(entries)
    requires idx < |entries| && (st.inBlock ==> st.start < idx) && IsExecEntry(entries[idx])
    ensures ScanStep(entries, ms, cx, st, idx)
      == ScanState(true, if st.inBlock then st.start else idx,
                   (if st.inBlock then st.cur else []) + [entries[idx]],
                   (if st.inBlock then st.size else 0) + 1, st.blocks)
  {
    ExecMarksAt(entries, idx);
  }

  lemma StepNeutral(entries: seq<GcovLine>, ms: seq<bool>, cx: ContextFn, st: ScanState, idx: nat)
    requires ms == ExecMarks(entries)
    requires idx < |entries| && st.inBlock && st.start < idx
    requires !IsExecEntry(entries[idx]) && IsNeutral(entries[idx].count)
    ensures ScanStep(entries, ms, cx, st, idx) == st.(cur := st.cur + [entries[idx]])
  {
    ExecMarksAt(entries, idx);
  }

  lemma StepClose(entries: seq<GcovLine>, ms: seq<bool>, cx: ContextFn, st: ScanState, idx: nat)
    requires ms == ExecMarks(entries)
    requires idx < |entries| && st.inBlock && st.start < idx && Closes(entries[idx])
    ensures ScanStep(entries, ms, cx, st, idx)
      == ScanState(false, 0, [], 0, st.blocks + [Block(cx(st.start, idx - 1), st.cur, st.size)])
  {
    ExecMarksAt(entries, idx);
  }

  lemma StepOther(entries: seq<GcovLine>, ms: seq<bool>, cx: ContextFn, st: ScanState, idx: nat)
    requires ms == ExecMarks(entries)
    requires idx < |entries| && !st.inBlock && !IsExecEntry(entries[idx])
    ensures ScanStep(entries, ms, cx, st, idx) == st
  {
    ExecMarksAt(entries, idx);
  }

  /** The blocks the scan leaves when it has read every entry: those it saved, and the
      block still open at the end. */
  function Finish(entries: seq<GcovLine>, ms: seq<bool>, cx: ContextFn): seq<Block>
    requires |ms| == |entries|
  {
    var st := Scan(entries, ms, cx, |entries|);
    if st.inBlock && st.cur != [] then
      st.blocks + [Block(cx(st.start, |entries| - 1), st.cur, st.size)]
    else st.blocks
  }

  /** The blocks of a file. */
  function Blocks(entries: seq<GcovLine>, limit: int): seq<Block> {
    Finish(entries, ExecMarks(entries), StoredContext(entries, limit))
  }

  lemma FinishScan(entries: seq<GcovLine>, limit: int, ms: seq<bool>, cx: ContextFn, st: ScanState)
    requires ms == ExecMarks(entries) && cx == StoredContext(entries, limit)
    requires st == Scan(entries, ms, cx, |entries|)
    ensures Blocks(entries, limit) == if st.inBlock && st.cur != [] then
      st.blocks + [Block(cx(st.start, |entries| - 1), st.cur, st.size)] else st.blocks
  {
  }

  /** The reading loop of `parse`: every line matching the analyzer's pattern gives an
      entry, its count stripped. */
  method ReadEntries(lines: seq<string>) returns (entries: seq<GcovLine>)
    ensures entries == Entries(lines)
  {
    entries := [];
    var i := 0;
    while i < |lines|
      invariant 0 <= i <= |lines|
      invariant entries == Entries(lines[..i])
    {
      entries := entries + EntryOf(lines[i]);
      EntriesPrefix(lines, i);
      i := i + 1;
    }
    assert lines[..i] == lines;
  }

  // ---------------------------------------------------------------- what the scan builds

  /** The number of marks set in `ms`. */
  function Count(ms: seq<bool>): (r: nat)
    ensures r <= |ms|
  {
    if ms == [] then 0 else Count(ms[..|ms| - 1]) + (if ms[|ms| - 1] then 1 else 0)
  }

  lemma CountSnoc(ms: seq<bool>, x: bool)
    ensures Count(ms + [x]) == Count(ms) + (if x then 1 else 0)
  {
    assert (ms + [x])[..|ms|] == ms;
  }

  /** Entry `i` may sit in a block: never-executed code or a neutral line. */
  predicate InRun(entries: seq<GcovLine>, ms: seq<bool>, i: nat)
    requires i < |entries| == |ms|
  {
    ms[i] || IsNeutral(entries[i].count)
  }

  /** Block `b` is the run of entries from `s` to `e` (both included): it starts with
      never-executed code that does not follow never-executed code, holds only
      never-executed code and neutral lines, is ended by the next entry or the end of the
      file, counts its never-executed code lines, and carries the context of that run. */
  ghost predicate BlockAt(entries: seq<GcovLine>, ms: seq<bool>, cx: ContextFn, b: Block, s: nat, e: nat)
    requires |ms| == |entries|
  {
    s <= e < |entries|
    && b.uncovered == entries[s..e + 1]
    && ms[s]
    && (s == 0 || !ms[s - 1])
    && (forall i :: s <= i <= e ==> InRun(entries, ms, i))
    && (e + 1 == |entries| || !InRun(entries, ms, e + 1))
    && b.size == Count(ms[s..e + 1])
    && b.context == cx(s, e)
  }

  /** The open block of the scan after `n` entries is the run from its start up to `n`. */
  ghost predicate OpenAt(entries: seq<GcovLine>, ms: seq<bool>, st: ScanState, n: nat)
    requires |ms| == |entries|
  {
    st.start < n <= |entries|
    && st.cur == entries[st.start..n]
    && ms[st.start]
    && (st.start == 0 || !ms[st.start - 1])
    && (forall i :: st.start <= i < n ==> InRun(entries, ms, i))
    && st.size == Count(ms[st.start..n])
  }

  /** Line `i` lies in one of the runs. */
  ghost predicate InSpans(spans: seq<(nat, nat)>, i: nat) {
    exists k :: 0 <= k < |spans| && spans[k].0 <= i <= spans[k].1
  }

  /** The saved blocks are the runs `spans`, all before entry `n`. */
  ghost predicate SavedOk(entries: seq<GcovLine>, ms: seq<bool>, cx: ContextFn, n: nat, blocks: seq<Block>, spans: seq<(nat, nat)>)
    requires |ms| == |entries|
  {
    |spans| == |blocks|
    && forall k :: 0 <= k < |spans| ==> BlockAt(entries, ms, cx, blocks[k], spans[k].0, spans[k].1) && spans[k].1 < n
  }

  /** The runs are in file order and do not overlap. */
  ghost predicate Ordered(spans: seq<(nat, nat)>) {
    forall k :: 0 <= k < |spans| - 1 ==> EndsBefore(spans, k)
  }

  /** Run `k` ends before run `k + 1` starts. */
  ghost predicate EndsBefore(spans: seq<(nat, nat)>, k: nat)
    requires k + 1 < |spans|
  {
    spans[k].1 < spans[k + 1].0
  }

  /** An open block is the run from its start to `n`, after every saved one. */
  ghost predicate OpenOk(entries: seq<GcovLine>, ms: seq<bool>, n: nat, st: ScanState, spans: seq<(nat, nat)>)
    requires |ms| == |entries|
  {
    st.inBlock ==> OpenAt(entries, ms, st, n) && (spans == [] || spans[|spans| - 1].1 < st.start)
  }

  /** With no block open, the last entry read is not never-executed code. */
  ghost predicate ClosedOk(ms: seq<bool>, n: nat, st: ScanState)
    requires n <= |ms|
  {
    !st.inBlock && 0 < n ==> !ms[n - 1]
  }

  /** Every never-executed code line read so far is in a saved block or the open one. */
  ghost predicate Complete(ms: seq<bool>, n: nat, st: ScanState, spans: seq<(nat, nat)>)
    requires n <= |ms|
  {
    forall i :: 0 <= i < n && ms[i] ==> InSpans(spans, i) || (st.inBlock && st.start <= i)
  }

  /** What holds of the scan after `n` entries, with the runs of the saved blocks. */
  ghost predicate Shape(entries: seq<GcovLine>, ms: seq<bool>, cx: ContextFn, n: nat, st: ScanState, spans: seq<(nat, nat)>)
    requires n <= |entries| == |ms|
  {
    SavedOk(entries, ms, cx, n, st.blocks, spans) && Ordered(spans) && OpenOk(entries, ms, n, st, spans)
    && ClosedOk(ms, n, st) && Complete(ms, n, st, spans)
  }

  lemma {:induction false} ShapeUpTo(entries: seq<GcovLine>, ms: seq<bool>, cx: ContextFn, n: nat)
    returns (spans: seq<(nat, nat)>)
    requires n <= |entries| == |ms|
    ensures Shape(entries, ms, cx, n, Scan(entries, ms, cx, n), spans)
    decreases n
  {
    if n == 0 {
      spans := [];
    } else {
      var prev := ShapeUpTo(entries, ms, cx, n - 1);
      spans := ShapeStep(entries, ms, cx, n, Scan(entries, ms, cx, n - 1), prev);
    }
  }

  /** Reading entry `n - 1` keeps the shape. */
  lemma ShapeStep(entries: seq<GcovLine>, ms: seq<bool>, cx: ContextFn, n: nat, st: ScanState, spans: seq<(nat, nat)>)
    returns (spans': seq<(nat, nat)>)
    requires 0 < n <= |entries| == |ms| && (st.inBlock ==> st.start < n - 1)
    requires Shape(entries, ms, cx, n - 1, st, spans)
    ensures Shape(entries, ms, cx, n, ScanStep(entries, ms, cx, st, n - 1), spans')
  {
    var r := ScanStep(entries, ms, cx, st, n - 1);
    if ms[n - 1] || (st.inBlock && IsNeutral(entries[n - 1].count)) {
      spans' := spans;
      ShapeExtend(entries, ms, cx, n, st, spans, r);
    } else if st.inBlock {
      spans' := spans + [(st.start, n - 2)];
      ShapeClose(entries, ms, cx, n, st, spans, r);
    } else {
      spans' := spans;
      ShapeOther(entries, ms, cx, n, st, spans);
    }
  }

  /** Never-executed code, or a neutral line inside a block, extends the open block (or
      opens one). */
  lemma ShapeExtend(entries: seq<GcovLine>, ms: seq<bool>, cx: ContextFn, n: nat, st: ScanState,
                    spans: seq<(nat, nat)>, r: ScanState)
    requires 0 < n <= |entries| == |ms| && Shape(entries, ms, cx, n - 1, st, spans)
    requires ms[n - 1] || (st.inBlock && IsNeutral(entries[n - 1].count))
    requires r == ScanState(true, if st.inBlock then st.start else n - 1,
                            (if st.inBlock then st.cur else []) + [entries[n - 1]],
                            (if st.inBlock then st.size else 0) + (if ms[n - 1] then 1 else 0), st.blocks)
    ensures Shape(entries, ms, cx, n, r, spans)
  {
    SavedGrow(entries, ms, cx, n, st.blocks, spans);
    SavedLast(entries, ms, cx, n - 1, st.blocks, spans);
    OpenExtend(entries, ms, n, st, spans, r);
    CompleteExtend(ms, n, st, r, spans);
  }

  /** Any other line ends the open block, which joins the saved runs. */
  lemma ShapeClose(entries: seq<GcovLine>, ms: seq<bool>, cx: ContextFn, n: nat, st: ScanState,
                   spans: seq<(nat, nat)>, r: ScanState)
    requires 1 < n <= |entries| == |ms| && Shape(entries, ms, cx, n - 1, st, spans)
    requires st.inBlock && !ms[n - 1] && !IsNeutral(entries[n - 1].count)
    requires r == ScanState(false, 0, [], 0, st.blocks + [Block(cx(st.start, n - 2), st.cur, st.size)])
    ensures Shape(entries, ms, cx, n, r, spans + [(st.start, n - 2)])
  {
    CloseParts(entries, ms, cx, n, st, spans, r, spans + [(st.start, n - 2)]);
  }

  /** The parts of `Shape` that closing the open block changes. */
  lemma CloseParts(entries: seq<GcovLine>, ms: seq<bool>, cx: ContextFn, n: nat, st: ScanState,
                   spans: seq<(nat, nat)>, r: ScanState, sps: seq<(nat, nat)>)
    requires 1 < n <= |entries| == |ms| && SavedOk(entries, ms, cx, n - 1, st.blocks, spans) && Ordered(spans)
    requires st.inBlock && OpenAt(entries, ms, st, n - 1) && (spans == [] || spans[|spans| - 1].1 < st.start)
    requires Complete(ms, n - 1, st, spans)
    requires !ms[n - 1] && !IsNeutral(entries[n - 1].count)
    requires r == ScanState(false, 0, [], 0, st.blocks + [Block(cx(st.start, n - 2), st.cur, st.size)])
    requires sps == spans + [(st.start, n - 2)]
    ensures SavedOk(entries, ms, cx, n, r.blocks, sps)
    ensures Ordered(sps)
    ensures Complete(ms, n, r, sps)
  {
    OrderedAppend(spans, st.start, n - 2, sps);
    SavedClose(entries, ms, cx, n, st, spans, r.blocks, sps);
    CompleteClose(ms, n, st, spans, r);
  }

  /** The open block, ended by entry `n - 1`, joins the saved blocks. */
  lemma SavedClose(entries: seq<GcovLine>, ms: seq<bool>, cx: ContextFn, n: nat, st: ScanState,
                   spans: seq<(nat, nat)>, blocks: seq<Block>, sps: seq<(nat, nat)>)
    requires 1 < n <= |entries| == |ms| && SavedOk(entries, ms, cx, n - 1, st.blocks, spans)
    requires st.inBlock && OpenAt(entries, ms, st, n - 1) && !ms[n - 1] && !IsNeutral(entries[n - 1].count)
    requires blocks == st.blocks + [Block(cx(st.start, n - 2), st.cur, st.size)]
    requires sps == spans + [(st.start, n - 2)]
    ensures SavedOk(entries, ms, cx, n, blocks, sps)
  {
    var b := Block(cx(st.start, n - 2), st.cur, st.size);
    ClosedBlockAt(entries, ms, cx, st, n - 1);
    SavedAppend(entries, ms, cx, n - 1, st.blocks, spans, b, st.start, n - 2);
    SavedGrow(entries, ms, cx, n, blocks, sps);
  }

  /** Any other line outside a block changes nothing. */
  lemma ShapeOther(entries: seq<GcovLine>, ms: seq<bool>, cx: ContextFn, n: nat, st: ScanState, spans: seq<(nat, nat)>)
    requires 0 < n <= |entries| == |ms| && Shape(entries, ms, cx, n - 1, st, spans)
    requires !st.inBlock && !ms[n - 1]
    ensures Shape(entries, ms, cx, n, st, spans)
  {
    SavedGrow(entries, ms, cx, n, st.blocks, spans);
    CompleteExtend(ms, n, st, st, spans);
  }

  lemma SavedGrow(entries: seq<GcovLine>, ms: seq<bool>, cx: ContextFn, n: nat, blocks: seq<Block>, spans: seq<(nat, nat)>)
    requires 0 < n && |ms| == |entries| && SavedOk(entries, ms, cx, n - 1, blocks, spans)
    ensures SavedOk(entries, ms, cx, n, blocks, spans)
  {
  }

  lemma SavedLast(entries: seq<GcovLine>, ms: seq<bool>, cx: ContextFn, n: nat, blocks: seq<Block>, spans: seq<(nat, nat)>)
    requires |ms| == |entries| && SavedOk(entries, ms, cx, n, blocks, spans)
    ensures spans == [] || spans[|spans| - 1].1 < n
  {
  }

  lemma SavedAppend(entries: seq<GcovLine>, ms: seq<bool>, cx: ContextFn, n: nat, blocks: seq<Block>,
                    spans: seq<(nat, nat)>, b: Block, s: nat, e: nat)
    requires |ms| == |entries| && SavedOk(entries, ms, cx, n, blocks, spans)
    requires BlockAt(entries, ms, cx, b, s, e) && e < n
    ensures SavedOk(entries, ms, cx, n, blocks + [b], spans + [(s, e)])
  {
    var bs, sps := blocks + [b], spans + [(s, e)];
    forall k | 0 <= k < |sps|
      ensures BlockAt(entries, ms, cx, bs[k], sps[k].0, sps[k].1) && sps[k].1 < n
    {
      if k < |spans| {
        assert bs[k] == blocks[k] && sps[k] == spans[k];
      }
    }
  }

  lemma OrderedAppend(spans: seq<(nat, nat)>, s: nat, e: nat, sps: seq<(nat, nat)>)
    requires Ordered(spans) && (spans == [] || spans[|spans| - 1].1 < s)
    requires sps == spans + [(s, e)]
    ensures Ordered(sps)
  {
    forall k | 0 <= k < |sps| - 1
      ensures EndsBefore(sps, k)
    {
      assert sps[k] == spans[k];
      if k + 1 < |spans| {
        assert EndsBefore(spans, k);
      }
    }
  }

  /** Never-executed code or a neutral line extends an open block; never-executed code
      opens one when none is open. */
  lemma OpenExtend(entries: seq<GcovLine>, ms: seq<bool>, n: nat, st: ScanState, spans: seq<(nat, nat)>, r: ScanState)
    requires 0 < n <= |entries| == |ms| && OpenOk(entries, ms, n - 1, st, spans) && ClosedOk(ms, n - 1, st)
    requires spans == [] || spans[|spans| - 1].1 < n - 1
    requires ms[n - 1] || (st.inBlock && IsNeutral(entries[n - 1].count))
    requires r == ScanState(true, if st.inBlock then st.start else n - 1,
                            (if st.inBlock then st.cur else []) + [entries[n - 1]],
                            (if st.inBlock then st.size else 0) + (if ms[n - 1] then 1 else 0), st.blocks)
    ensures OpenOk(entries, ms, n, r, spans)
  {
    if st.inBlock {
      OpenGrow(entries, ms, n, st, r);
    } else {
      OpenStart(entries, ms, n, r);
    }
  }

  /** Never-executed code or a neutral line after the open block joins it. */
  lemma OpenGrow(entries: seq<GcovLine>, ms: seq<bool>, n: nat, st: ScanState, r: ScanState)
    requires 0 < n <= |entries| == |ms| && st.inBlock && OpenAt(entries, ms, st, n - 1)
    requires ms[n - 1] || IsNeutral(entries[n - 1].count)
    requires r == ScanState(true, st.start, st.cur + [entries[n - 1]], st.size + (if ms[n - 1] then 1 else 0), st.blocks)
    ensures OpenAt(entries, ms, r, n)
  {
    var m := n - 1;
    assert r.cur == entries[st.start..n] by {
      assert entries[st.start..n] == entries[st.start..m] + [entries[m]];
    }
    assert r.size == Count(ms[st.start..n]) by {
      assert ms[st.start..n] == ms[st.start..m] + [ms[m]];
      CountSnoc(ms[st.start..m], ms[m]);
    }
  }

  /** Never-executed code after a line that is not opens a block of its own. */
  lemma OpenStart(entries: seq<GcovLine>, ms: seq<bool>, n: nat, r: ScanState)
    requires 0 < n <= |entries| == |ms| && ms[n - 1] && (n == 1 || !ms[n - 2])
    requires r.inBlock && r.start == n - 1 && r.cur == [entries[n - 1]] && r.size == 1
    ensures OpenAt(entries, ms, r, n)
  {
    var m := n - 1;
    assert entries[m..n] == [entries[m]];
    assert ms[m..n] == [] + [ms[m]];
    CountSnoc([], ms[m]);
  }

  /** Reading entry `n - 1` keeps every marked entry in a run when the open block, if any,
      stays open, and a marked entry `n - 1` is in the block open afterwards. */
  lemma CompleteExtend(ms: seq<bool>, n: nat, st: ScanState, r: ScanState, spans: seq<(nat, nat)>)
    requires 0 < n <= |ms| && Complete(ms, n - 1, st, spans)
    requires st.inBlock ==> r.inBlock && r.start == st.start
    requires ms[n - 1] ==> r.inBlock && r.start <= n - 1
    ensures Complete(ms, n, r, spans)
  {
  }

  /** The open block, ended before entry `n`, is a block of the file. */
  lemma ClosedBlockAt(entries: seq<GcovLine>, ms: seq<bool>, cx: ContextFn, st: ScanState, n: nat)
    requires |ms| == |entries| && st.inBlock && OpenAt(entries, ms, st, n)
    requires n == |entries| || !InRun(entries, ms, n)
    ensures BlockAt(entries, ms, cx, Block(cx(st.start, n - 1), st.cur, st.size), st.start, n - 1)
  {
    assert entries[st.start..n - 1 + 1] == st.cur;
    assert ms[st.start..n - 1 + 1] == ms[st.start..n];
  }

  lemma InSpansAppend(spans: seq<(nat, nat)>, s: nat, e: nat, i: nat)
    requires InSpans(spans, i) || s <= i <= e
    ensures InSpans(spans + [(s, e)], i)
  {
    var sps := spans + [(s, e)];
    if s <= i <= e {
      assert sps[|spans|].0 <= i <= sps[|spans|].1;
    } else {
      var k :| 0 <= k < |spans| && spans[k].0 <= i <= spans[k].1;
      assert sps[k] == spans[k];
    }
  }

  /** Closing the open block at entry `n - 1` puts every line it held into the saved runs. */
  lemma CompleteClose(ms: seq<bool>, n: nat, st: ScanState, spans: seq<(nat, nat)>, r: ScanState)
    requires 1 < n <= |ms| && st.inBlock && Complete(ms, n - 1, st, spans) && !ms[n - 1]
    ensures Complete(ms, n, r, spans + [(st.start, n - 2)])
  {
    forall i | 0 <= i < n && ms[i]
      ensures InSpans(spans + [(st.start, n - 2)], i)
    {
      InSpansAppend(spans, st.start, n - 2, i);
    }
  }

  /** What the scan leaves, whatever entries `ms` marks: runs of entries as `BlockAt`
      describes them, in file order and disjoint, covering every marked entry. */
  lemma FinishShape(entries: seq<GcovLine>, ms: seq<bool>, cx: ContextFn) returns (spans: seq<(nat, nat)>)
    requires |ms| == |entries|
    ensures var bs := Finish(entries, ms, cx);
      && |spans| == |bs|
      && (forall k :: 0 <= k < |spans| ==> BlockAt(entries, ms, cx, bs[k], spans[k].0, spans[k].1))
      && Ordered(spans)
      && (forall i :: 0 <= i < |entries| && ms[i] ==> InSpans(spans, i))
  {
    var n := |entries|;
    var st := Scan(entries, ms, cx, n);
    spans := ShapeUpTo(entries, ms, cx, n);
    if st.inBlock && st.cur != [] {
      var b := Block(cx(st.start, n - 1), st.cur, st.size);
      var sps := spans + [(st.start, n - 1)];
      FinishParts(entries, ms, cx, st, spans, b, sps);
      spans := sps;
    }
  }

  /** The block still open at the end of the file joins the saved runs. */
  lemma FinishParts(entries: seq<GcovLine>, ms: seq<bool>, cx: ContextFn, st: ScanState, spans: seq<(nat, nat)>,
                    b: Block, sps: seq<(nat, nat)>)
    requires |ms| == |entries| && SavedOk(entries, ms, cx, |entries|, st.blocks, spans) && Ordered(spans)
    requires st.inBlock && OpenAt(entries, ms, st, |entries|) && (spans == [] || spans[|spans| - 1].1 < st.start)
    requires Complete(ms, |entries|, st, spans)
    requires b == Block(cx(st.start, |entries| - 1), st.cur, st.size) && sps == spans + [(st.start, |entries| - 1)]
    ensures SavedOk(entries, ms, cx, |entries|, st.blocks + [b], sps)
    ensures Ordered(sps)
    ensures forall i :: 0 <= i < |entries| && ms[i] ==> InSpans(sps, i)
  {
    var n := |entries|;
    assert SavedOk(entries, ms, cx, n, st.blocks + [b], sps) by {
      ClosedBlockAt(entries, ms, cx, st, n);
      SavedAppend(entries, ms, cx, n, st.blocks, spans, b, st.start, n - 1);
    }
    OrderedAppend(spans, st.start, n - 1, sps);
    CompleteFinish(ms, n, st, spans);
  }

  /** Closing the block still open after `n` entries puts every line it held into the saved runs. */
  lemma CompleteFinish(ms: seq<bool>, n: nat, st: ScanState, spans: seq<(nat, nat)>)
    requires st.start < n <= |ms| && Complete(ms, n, st, spans)
    ensures forall i :: 0 <= i < n && ms[i] ==> InSpans(spans + [(st.start, n - 1)], i)
  {
    forall i | 0 <= i < n && ms[i]
      ensures InSpans(spans + [(st.start, n - 1)], i)
    {
      InSpansAppend(spans, st.start, n - 1, i);
    }
  }

  lemma StoredContextAt(entries: seq<GcovLine>, limit: int, s: nat, e: int)
    requires s <= |entries| && -1 <= e < |entries|
    ensures StoredContext(entries, limit)(s, e) == ContextOpt(Context(entries, limit, s, e))
  {
  }

  /** `parse` splits a file into its blocks: each block is a maximal run of never-executed
      code and neutral lines that starts with never-executed code (`BlockAt`, with the
      file's own marks), its context is the one `_collect_context` finds around it, the
      blocks are in file order and do not overlap, and every never-executed code line is in
      one of them. */
  lemma BlocksShape(entries: seq<GcovLine>, limit: int) returns (spans: seq<(nat, nat)>)
    ensures var bs := Blocks(entries, limit);
      && |spans| == |bs|
      && (forall k :: 0 <= k < |spans| ==>
            && BlockAt(entries, ExecMarks(entries), StoredContext(entries, limit), bs[k], spans[k].0, spans[k].1)
            && bs[k].context == ContextOpt(Context(entries, limit, spans[k].0, spans[k].1)))
      && Ordered(spans)
      && (forall i :: 0 <= i < |entries| && IsExecEntry(entries[i]) ==> InSpans(spans, i))
  {
    var ms := ExecMarks(entries);
    var cx := StoredContext(entries, limit);
    var bs := Blocks(entries, limit);
    spans := FinishShape(entries, ms, cx);
    forall k | 0 <= k < |spans|
      ensures bs[k].context == ContextOpt(Context(entries, limit, spans[k].0, spans[k].1))
    {
      assert BlockAt(entries, ms, cx, bs[k], spans[k].0, spans[k].1);
      StoredContextAt(entries, limit, spans[k].0, spans[k].1);
    }
    forall i | 0 <= i < |entries| && IsExecEntry(entries[i])
      ensures InSpans(spans, i)
    {
      ExecMarksAt(entries, i);
    }
  }

  // ---------------------------------------------------------------- the analyzer

  /** The backward walk of `_collect_context`: from the line before the block towards the
      top of the file, collecting executed code lines until there are `limit`; the
      collection is then put back in file order. */
  method CollectBefore(entries: seq<GcovLine>, limit: int, start: nat) returns (before: seq<GcovLine>)
    requires start <= |entries|
    ensures before == LastN(CoveredOnly(entries[..start]), limit)
  {
    var collected: seq<GcovLine> := [];
    var i: int := start - 1;
    while i >= 0 && |collected| < limit
      invariant -1 <= i < start
      invariant Reverse(collected) == CoveredOnly(entries[i + 1..start])
      invariant |collected| <= limit || (collected == [] && i == start - 1)
      decreases i
    {
      var e := entries[i];
      BeforeStep(entries, i, start, collected);
      if IsCovered(e.count, e.code) {
        collected := collected + [e];
      }
      i := i - 1;
    }
    BeforeDone(entries, start, i, collected, limit);
    before := Reverse(collected);
  }

  /** The forward walk of `_collect_context`: from the line after the block towards the
      end of the file, collecting executed code lines until there are `limit`. */
  method CollectAfter(entries: seq<GcovLine>, limit: int, end: int) returns (after: seq<GcovLine>)
    requires -1 <= end < |entries|
    ensures after == FirstN(CoveredOnly(entries[end + 1..]), limit)
  {
    after := [];
    var i := end + 1;
    while i < |entries| && |after| < limit
      invariant end + 1 <= i <= |entries|
      invariant after == CoveredOnly(entries[end + 1..i])
      invariant |after| <= limit || after == []
      decreases |entries| - i
    {
      var e := entries[i];
      ghost var prev := after;
      if IsCovered(e.count, e.code) {
        after := after + [e];
      }
      AfterStep(entries, end, i, prev, after);
      i := i + 1;
    }
    AfterDone(entries, end, i, after, limit);
  }

  /** `_collect_context` on the analyzer's entries and limit: the lines before the block,
      then the lines after it. */
  method CollectContext(entries: seq<GcovLine>, limit: int, start: nat, end: int) returns (ctx: seq<GcovLine>)
    requires start <= |entries| && -1 <= end < |entries|
    ensures ctx == Context(entries, limit, start, end)
  {
    var before := CollectBefore(entries, limit, start);
    var after := CollectAfter(entries, limit, end);
    ctx := before + after;
  }

  /** `_save_block`: appends the block with its context, `None` when that is empty. */
  method SaveBlock(entries: seq<GcovLine>, limit: int, blocks: seq<Block>, start: nat, end: int,
                   uncoveredBlock: seq<GcovLine>, execCount: nat) returns (saved: seq<Block>)
    requires start <= |entries| && -1 <= end < |entries|
    ensures saved == blocks + [Block(ContextOpt(Context(entries, limit, start, end)), uncoveredBlock, execCount)]
  {
    var ctx := CollectContext(entries, limit, start, end);
    var context: Option<seq<GcovLine>> := if ctx == [] then None else Some(ctx);
    saved := blocks + [Block(context, uncoveredBlock, execCount)];
  }

  /** The scanning loop of `parse`: never-executed code opens a block or extends the open
      one and counts; a neutral line extends an open block; anything else saves the open
      block; a block still open at the end is saved if it has lines. */
  method ScanBlocks(entries: seq<GcovLine>, limit: int) returns (blocks: seq<Block>)
    ensures blocks == Blocks(entries, limit)
  {
    ghost var ms := ExecMarks(entries);
    ghost var cx := StoredContext(entries, limit);
    blocks := [];
    var inBlock := false;
    var startIdx: nat := 0;
    var curBlock: seq<GcovLine> := [];
    var execCount: nat := 0;
    var idx := 0;
    while idx < |entries|
      invariant 0 <= idx <= |entries|
      invariant Scan(entries, ms, cx, idx) == ScanState(inBlock, startIdx, curBlock, execCount, blocks)
    {
      var e := entries[idx];
      ghost var st := ScanState(inBlock, startIdx, curBlock, execCount, blocks);
      assert Scan(entries, ms, cx, idx + 1) == ScanStep(entries, ms, cx, st, idx);
      if IsUncoveredExec(e.count, e.code) {
        StepExec(entries, ms, cx, st, idx);
        if !inBlock {
          inBlock := true;
          startIdx := idx;
          curBlock := [];
          execCount := 0;
        }
        curBlock := curBlock + [e];
        execCount := execCount + 1;
      } else if inBlock && IsNeutral(e.count) {
        StepNeutral(entries, ms, cx, st, idx);
        curBlock := curBlock + [e];
      } else if inBlock {
        StepClose(entries, ms, cx, st, idx);
        blocks := SaveBlock(entries, limit, blocks, startIdx, idx - 1, curBlock, execCount);
        inBlock := false;
        startIdx := 0;
        curBlock := [];
        execCount := 0;
      } else {
        StepOther(entries, ms, cx, st, idx);
      }
      idx := idx + 1;
    }
    ghost var st := ScanState(inBlock, startIdx, curBlock, execCount, blocks);
    if inBlock && curBlock != [] {
      blocks := SaveBlock(entries, limit, blocks, startIdx, |entries| - 1, curBlock, execCount);
    }
    FinishScan(entries, limit, ms, cx, st);
  }

  /** `UncoveredBlockAnalyzer`: the path of a gcov file, the context limit, and what
      `parse` finds in the file. */
  class UncoveredBlockAnalyzer {
    /** The file's lines, or `None` when it does not exist. */
    var gcovFile: Option<seq<string>>
    var contextLimit: int
    var entries: seq<GcovLine>
    var blocks: seq<Block>

    constructor (gcovFile: Option<seq<string>>, contextLimit: int)
      ensures this.gcovFile == gcovFile && this.contextLimit == contextLimit
      ensures entries == [] && blocks == []
    {
      this.gcovFile := gcovFile;
      this.contextLimit := contextLimit;
      entries := [];
      blocks := [];
    }

    /** `parse`: a missing file is reported (`FileNotFoundError`) and changes nothing;
        otherwise entries and blocks are cleared and rebuilt from the file alone, so a
        second parse gives the same result. */
    method Parse() returns (found: bool)
      modifies this
      ensures gcovFile == old(gcovFile) && contextLimit == old(contextLimit)
      ensures found <==> gcovFile.Some?
      ensures !found ==> entries == old(entries) && blocks == old(blocks)
      ensures found ==> entries == Entries(gcovFile.value) && blocks == Blocks(entries, contextLimit)
    {
      if gcovFile.None? {
        return false;
      }
      entries := [];
      blocks := [];
      entries := ReadEntries(gcovFile.value);
      blocks := ScanBlocks(entries, contextLimit);
      return true;
    }
  }
}
