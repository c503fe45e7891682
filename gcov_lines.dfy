/** The gcov text format as the pipeline reads and writes it: one line per source
    line, `<count>:<line number>:<source text>`, where the count column holds an
    execution count, `#####` (executable, never run) or `-` (not executable). */
module GcovLines {
  import opened Wrappers
  import opened Text

  /** `[#\-\d]`: a character of the count column. */
  predicate IsCountChar(c: char) {
    c == '#' || c == '-' || IsDigit(c)
  }

  /** `.` without `re.DOTALL`: anything but a line feed. */
  predicate IsLineChar(c: char) {
    c != '\n'
  }

  /** A count column the patterns can capture: `[#\-\d]+`. */
  predicate IsCountText(s: string) {
    |s| > 0 && forall i :: 0 <= i < |s| ==> IsCountChar(s[i])
  }

  /** The three captured groups of a gcov line. */
  datatype GcovLine = GcovLine(count: string, lineNo: nat, code: string)

  /** What the head of a gcov line pattern captures, and where its match ends. */
  datatype Head = Head(count: string, lineNo: nat, end: nat)

  /** The common head of the gcov line patterns, matched at the start of `s`:
      `^\s*([#\-\d]+)` `\s*`? `:\s*(\d+)` `\s*`? `:`, the optional `\s*` present when
      `spaced` holds (the patterns of `main.py`) and absent otherwise (the analyzer's).
      Every character class is disjoint from what follows it, so greedy matching is
      the only way to match. Gives the count, the line number and where the match ends. */
  function MatchHead(s: string, spaced: bool): (r: Option<Head>)
    ensures r.Some? ==> 0 < r.value.end <= |s| && IsCountText(r.value.count)
  {
    var a := SpanEnd(s, 0, IsSpace);
    var b := SpanEnd(s, a, IsCountChar);
    var c := if spaced then SpanEnd(s, b, IsSpace) else b;
    if b == a || c == |s| || s[c] != ':' then None
    else
      var d := SpanEnd(s, c + 1, IsSpace);
      var e := SpanEnd(s, d, IsDigit);
      var f := if spaced then SpanEnd(s, e, IsSpace) else e;
      if e == d || f == |s| || s[f] != ':' then None
      else
        SpanEndRun(s, d, IsDigit);
        SpanEndRun(s, a, IsCountChar);
        Some(Head(s[a..b], DigitsValue(s[d..e]), f + 1))
  }

  /** A whole gcov line: the head followed by `(?P<code>.*)$`. The source text runs to
      the first line feed, and the match fails unless that line feed is the last
      character (`$` also matches just before a final line feed). */
  function MatchLine(s: string, spaced: bool): (r: Option<GcovLine>)
    ensures r.Some? ==> IsCountText(r.value.count) && '\n' !in r.value.code
  {
    match MatchHead(s, spaced)
    case None => None
    case Some(h) =>
      var q := SpanEnd(s, h.end, IsLineChar);
      SpanEndRun(s, h.end, IsLineChar);
      if q == |s| || q == |s| - 1 then Some(GcovLine(h.count, h.lineNo, s[h.end..q])) else None
  }

  /** `f"{count:>5}: {line_num:5d}:{code}"`, how the pipeline prints a gcov entry. */
  function FormatLine(count: string, lineNo: nat, code: string): string {
    FormatFields(count, NatToString(lineNo), code)
  }

  /** `FormatLine` with the line number already written out. */
  function FormatFields(count: string, digits: string, code: string): string {
    PadLeft(count, 5) + (": " + (PadLeft(digits, 5) + (":" + code)))
  }

  /** The head pattern on a line laid out as padding (up to `a`), count (up to `b`),
      `:`, padding (up to `d`), digits (up to `e`) and `:`: it captures the count and
      the number, and ends after the second colon. */
  lemma MatchHeadAt(s: string, a: nat, b: nat, d: nat, e: nat, spaced: bool)
    requires a < b < d <= e < |s| && d < e
    requires forall k :: 0 <= k < a ==> IsSpace(s[k])
    requires forall k :: a <= k < b ==> IsCountChar(s[k])
    requires s[b] == ':' && s[e] == ':'
    requires forall k :: b + 1 <= k < d ==> IsSpace(s[k])
    requires forall k :: d <= k < e ==> IsDigit(s[k])
    ensures MatchHead(s, spaced) == Some(Head(s[a..b], DigitsValue(s[d..e]), e + 1))
  {
    SpanEndExact(s, 0, a, IsSpace);
    SpanEndExact(s, a, b, IsCountChar);
    SpanEndExact(s, b, b, IsSpace);
    SpanEndExact(s, b + 1, d, IsSpace);
    SpanEndExact(s, d, e, IsDigit);
    SpanEndExact(s, e, e, IsSpace);
  }

  /** A property of every character of a slice is a property of those positions of the whole. */
  lemma SliceAll(s: string, i: nat, t: string, p: char -> bool)
    requires i + |t| <= |s| && s[i..i + |t|] == t
    requires forall k :: 0 <= k < |t| ==> p(t[k])
    ensures forall k :: i <= k < i + |t| ==> p(s[k])
  {
    assert forall k :: i <= k < i + |t| ==> s[k] == t[k - i];
  }

  /** `s` is laid out as a printed entry up to its second colon: padding, `count`,
      `:` at `b`, padding, `digits`, `:` at `e`. */
  predicate LaidOut(s: string, count: string, digits: string, b: nat, e: nat) {
    && |count| <= b && b + 1 < e - |digits| && e < |s| && s[b] == ':' && s[e] == ':'
    && (forall k :: 0 <= k < b - |count| ==> IsSpace(s[k]))
    && s[b - |count|..b] == count
    && (forall k :: b + 1 <= k < e - |digits| ==> IsSpace(s[k]))
    && s[e - |digits|..e] == digits
  }

  /** `p` is `f` with whitespace in front. */
  predicate PaddedTo(p: string, f: string) {
    |f| <= |p| && p[|p| - |f|..] == f && forall k :: 0 <= k < |p| - |f| ==> IsSpace(p[k])
  }

  /** Two padded fields joined as a printed entry: the columns lie where `LaidOut` says. */
  lemma ComposeLayout(p1: string, p2: string, rest: string, count: string, digits: string)
    requires PaddedTo(p1, count) && PaddedTo(p2, digits) && |digits| > 0
    ensures var s := p1 + (": " + (p2 + (":" + rest)));
      var b, e := |p1|, |p1| + 2 + |p2|;
      LaidOut(s, count, digits, b, e) && s[e + 1..] == rest
  {
    var r2 := p2 + (":" + rest);
    var s := p1 + (": " + r2);
    var b := |p1|;
    assert s[..b] == p1;
    assert s[b..] == ": " + r2;
    assert r2[..|p2|] == p2;
    assert forall k :: b + 2 <= k < |s| ==> s[k] == r2[k - b - 2];
  }

  /** Where the columns of a printed entry lie: the two colons are at `b` and `e`, and `rest` follows. */
  lemma FieldsLayout(count: string, digits: string, rest: string) returns (b: nat, e: nat)
    requires IsCountText(count) && AllDigits(digits)
    ensures var s := FormatFields(count, digits, rest);
      LaidOut(s, count, digits, b, e) && s[e + 1..] == rest
  {
    var p1, p2 := PadLeft(count, 5), PadLeft(digits, 5);
    ComposeLayout(p1, p2, rest, count, digits);
    b, e := |p1|, |p1| + 2 + |p2|;
  }

  /** The head pattern on a line laid out as a printed entry captures the count and the number. */
  lemma HeadAtLayout(s: string, count: string, digits: string, b: nat, e: nat, spaced: bool)
    requires IsCountText(count) && AllDigits(digits)
    requires LaidOut(s, count, digits, b, e)
    ensures MatchHead(s, spaced) == Some(Head(count, DigitsValue(digits), e + 1))
  {
    var a, d := b - |count|, e - |digits|;
    assert forall k :: a <= k < b ==> IsCountChar(s[k]) by {
      SliceAll(s, a, count, IsCountChar);
    }
    assert forall k :: d <= k < e ==> IsDigit(s[k]) by {
      SliceAll(s, d, digits, IsDigit);
    }
    assert s[a..b] == count && s[d..e] == digits;
    MatchHeadAt(s, a, b, d, e, spaced);
  }

  /** A whole gcov line laid out as a printed entry, followed by source text without line
      feeds and possibly a final line feed, matches with the entry's three fields. */
  lemma LineAtLayout(s: string, count: string, digits: string, code: string, tail: string, b: nat, e: nat, spaced: bool)
    requires IsCountText(count) && AllDigits(digits) && '\n' !in code
    requires tail == "" || tail == "\n"
    requires LaidOut(s, count, digits, b, e) && s[e + 1..] == code + tail
    ensures MatchLine(s, spaced) == Some(GcovLine(count, DigitsValue(digits), code))
  {
    HeadAtLayout(s, count, digits, b, e, spaced);
    LineAfterHead(s, spaced, code, tail);
  }

  /** A suffix that is `x + y`, seen position by position. */
  lemma SuffixSplit(s: string, p: nat, x: string, y: string)
    requires p <= |s| && s[p..] == x + y
    ensures |s| == p + |x| + |y| && s[p..p + |x|] == x
    ensures forall k :: p <= k < p + |x| ==> s[k] == x[k - p]
    ensures forall k :: p + |x| <= k < |s| ==> s[k] == y[k - p - |x|]
  {
    assert forall k :: p <= k < |s| ==> s[k] == s[p..][k - p];
  }

  /** A line feed after a printed entry is a line feed after its source text. */
  lemma FormatTail(count: string, lineNo: nat, code: string, tail: string)
    ensures FormatLine(count, lineNo, code) + tail == FormatFields(count, NatToString(lineNo), code + tail)
  {
  }

  /** Reading back a printed entry with any of the gcov line patterns gives the entry:
      the padding is whitespace, which the patterns skip. */
  lemma MatchFormatted(count: string, lineNo: nat, code: string, spaced: bool, tail: string)
    requires IsCountText(count) && '\n' !in code
    requires tail == "" || tail == "\n"
    ensures MatchLine(FormatLine(count, lineNo, code) + tail, spaced) == Some(GcovLine(count, lineNo, code))
  {
    var digits := NatToString(lineNo);
    FormatTail(count, lineNo, code, tail);
    var b, e := FieldsLayout(count, digits, code + tail);
    LineAtLayout(FormatFields(count, digits, code + tail), count, digits, code, tail, b, e, spaced);
    DigitsValueOfNatToString(lineNo);
  }

  /** A head match followed by source text without line feeds, and possibly a final
      line feed, is a whole-line match whose third field is that text. */
  lemma LineAfterHead(s: string, spaced: bool, code: string, tail: string)
    requires MatchHead(s, spaced).Some? && '\n' !in code
    requires tail == "" || tail == "\n"
    requires var p := MatchHead(s, spaced).value.end; s[p..] == code + tail
    ensures var h := MatchHead(s, spaced).value;
      MatchLine(s, spaced) == Some(GcovLine(h.count, h.lineNo, code))
  {
    var p := MatchHead(s, spaced).value.end;
    SuffixSplit(s, p, code, tail);
    SpanEndExact(s, p, p + |code|, IsLineChar);
  }

  /** A printed entry has no line feed when its fields have none. */
  lemma FormatNoNewline(count: string, digits: string, code: string)
    requires '\n' !in count && '\n' !in digits && '\n' !in code
    ensures '\n' !in FormatFields(count, digits, code)
  {
    PadNoNewline(count);
    PadNoNewline(digits);
  }

  lemma PadNoNewline(f: string)
    requires '\n' !in f
    ensures '\n' !in PadLeft(f, 5)
  {
    var p := PadLeft(f, 5);
    forall k | 0 <= k < |p|
      ensures p[k] != '\n'
    {
      if k >= |p| - |f| {
        assert p[k] == p[|p| - |f|..][k - (|p| - |f|)];
      }
    }
  }

  /** A count column has no surrounding whitespace, so stripping it changes nothing. */
  lemma StripCount(count: string)
    requires IsCountText(count)
    ensures Strip(count) == count
  {
    StripNoSpaceEnds(count);
  }
}
