/** Python `str` operations and the character classes of Python's `re` module,
    as the pipeline scripts use them on gcov text and model replies. */
module Text {

  /** Python's `str.isspace()`, which is also what `\s` matches in a `re` pattern
      on `str` and what `str.strip()` removes. */
  predicate IsSpace(c: char) {
    c == ' ' || '\t' <= c <= '\r' || '\U{1c}' <= c <= '\U{1f}'
    || c == '\U{85}' || c == '\U{a0}' || c == '\U{1680}'
    || '\U{2000}' <= c <= '\U{200a}' || c == '\U{2028}' || c == '\U{2029}'
    || c == '\U{202f}' || c == '\U{205f}' || c == '\U{3000}'
  }

  /** `\d` (ASCII digits only in this model). */
  predicate IsDigit(c: char) {
    '0' <= c <= '9'
  }

  predicate IsAsciiLetter(c: char) {
    'a' <= c <= 'z' || 'A' <= c <= 'Z'
  }

  /** `\w` (ASCII only in this model); `\b` is a change between word and non-word. */
  predicate IsWordChar(c: char) {
    IsAsciiLetter(c) || IsDigit(c) || c == '_'
  }

  /** Python's `str.isdigit()`: non-empty and made of digits only. */
  predicate AllDigits(s: string) {
    |s| > 0 && forall i :: 0 <= i < |s| ==> IsDigit(s[i])
  }

  /** The end of the longest run of characters satisfying `p` that starts at `i`:
      what a greedy `[class]*` consumes there. */
  function SpanEnd(s: string, i: nat, p: char -> bool): (j: nat)
    requires i <= |s|
    ensures i <= j <= |s|
    ensures j == |s| || !p(s[j])
    decreases |s| - i
  {
    if i < |s| && p(s[i]) then SpanEnd(s, i + 1, p) else i
  }

  /** Every character of the run `SpanEnd` finds satisfies `p`. */
  lemma {:induction false} SpanEndRun(s: string, i: nat, p: char -> bool)
    requires i <= |s|
    ensures forall k :: i <= k < SpanEnd(s, i, p) ==> p(s[k])
    decreases |s| - i
  {
    if i < |s| && p(s[i]) {
      SpanEndRun(s, i + 1, p);
    }
  }

  /** `SpanEnd` only looks forward, so a prefix in front of the text shifts it. */
  lemma {:induction false} SpanEndShift(pre: string, s: string, i: nat, p: char -> bool)
    requires i <= |s|
    ensures SpanEnd(pre + s, |pre| + i, p) == |pre| + SpanEnd(s, i, p)
    decreases |s| - i
  {
    var t := pre + s;
    assert |pre| + i < |t| ==> t[|pre| + i] == s[i];
    if i < |s| && p(s[i]) {
      SpanEndShift(pre, s, i + 1, p);
    }
  }

  /** A text followed by more text: the run ends at the same place when it stops inside the first part. */
  lemma {:induction false} SpanEndExtend(s: string, more: string, i: nat, p: char -> bool)
    requires i <= |s|
    requires SpanEnd(s, i, p) < |s|
    ensures SpanEnd(s + more, i, p) == SpanEnd(s, i, p)
    decreases |s| - i
  {
    if p(s[i]) {
      SpanEndExtend(s, more, i + 1, p);
    }
  }

  /** A run of `p`-characters from `i` to `j` that `p` does not continue is exactly what `SpanEnd` finds. */
  lemma {:induction false} SpanEndExact(s: string, i: nat, j: nat, p: char -> bool)
    requires i <= j <= |s|
    requires forall k :: i <= k < j ==> p(s[k])
    requires j == |s| || !p(s[j])
    ensures SpanEnd(s, i, p) == j
    decreases j - i
  {
    if i < j {
      SpanEndExact(s, i + 1, j, p);
    }
  }

  function LStrip(s: string): (r: string)
    ensures |r| <= |s| && r == s[|s| - |r|..]
    ensures r == [] || !IsSpace(r[0])
  {
    s[SpanEnd(s, 0, IsSpace)..]
  }

  /** What `LStrip` removes is whitespace. */
  lemma LStripSpaces(s: string)
    ensures forall k :: 0 <= k < |s| - |LStrip(s)| ==> IsSpace(s[k])
  {
    SpanEndRun(s, 0, IsSpace);
  }

  function RStrip(s: string): (r: string)
    ensures |r| <= |s| && r == s[..|r|]
    ensures r == [] || !IsSpace(r[|r| - 1])
  {
    if s != [] && IsSpace(s[|s| - 1]) then RStrip(s[..|s| - 1]) else s
  }

  /** What `RStrip` removes is whitespace. */
  lemma {:induction false} RStripSpaces(s: string)
    ensures forall k :: |RStrip(s)| <= k < |s| ==> IsSpace(s[k])
    decreases |s|
  {
    if s != [] && IsSpace(s[|s| - 1]) {
      RStripSpaces(s[..|s| - 1]);
    }
  }

  /** Python's `str.strip()`. */
  function Strip(s: string): (r: string)
    ensures r == [] || (!IsSpace(r[0]) && !IsSpace(r[|r| - 1]))
  {
    RStrip(LStrip(s))
  }

  /** A text without surrounding whitespace is its own strip. */
  lemma StripNoSpaceEnds(s: string)
    requires s == [] || (!IsSpace(s[0]) && !IsSpace(s[|s| - 1]))
    ensures Strip(s) == s
  {
  }

  function LowerChar(c: char): char {
    if 'A' <= c <= 'Z' then (c as int + 32) as char else c
  }

  /** Python's `str.lower()` (ASCII letters only in this model). */
  function Lower(s: string): (r: string)
    ensures |r| == |s|
  {
    seq(|s|, i requires 0 <= i < |s| => LowerChar(s[i]))
  }

  predicate StartsWith(s: string, prefix: string) {
    |prefix| <= |s| && s[..|prefix|] == prefix
  }

  predicate EndsWith(s: string, suffix: string) {
    |suffix| <= |s| && s[|s| - |suffix|..] == suffix
  }

  /** Python's `sub in s`. */
  predicate Contains(s: string, sub: string) {
    StartsWith(s, sub) || (|s| > 0 && Contains(s[1..], sub))
  }

  /** `sub` occurs at position `k` of `s`. */
  predicate OccursAt(s: string, sub: string, k: int) {
    0 <= k && k + |sub| <= |s| && s[k..k + |sub|] == sub
  }

  /** `sub in s` holds exactly when `sub` occurs at some position of `s`. */
  lemma {:induction false} ContainsAt(s: string, sub: string)
    ensures Contains(s, sub) <==> exists k :: OccursAt(s, sub, k)
    decreases |s|
  {
    assert OccursAt(s, sub, 0) <==> StartsWith(s, sub) by {
      assert |sub| <= |s| ==> s[..|sub|] == s[0..|sub|];
    }
    if !StartsWith(s, sub) && |s| > 0 {
      var t := s[1..];
      ContainsAt(t, sub);
      if k :| OccursAt(t, sub, k) {
        TailSlice(s, k, k + |sub|);
        assert OccursAt(s, sub, k + 1);
      }
      forall k | OccursAt(s, sub, k) && k > 0
        ensures OccursAt(t, sub, k - 1)
      {
        TailSlice(s, k - 1, k - 1 + |sub|);
      }
    }
  }

  /** A slice of the tail is the slice one further on of the whole. */
  lemma TailSlice(s: string, a: nat, b: nat)
    requires 0 < |s| && a <= b <= |s| - 1
    ensures s[1..][a..b] == s[a + 1..b + 1]
  {
  }

  /** Python's `s.replace(old, new)`: every non-overlapping occurrence, left to right. */
  function ReplaceAll(s: string, pat: string, rep: string): (r: string)
    requires |pat| > 0
    decreases |s|
  {
    if |s| < |pat| then s
    else if s[..|pat|] == pat then rep + ReplaceAll(s[|pat|..], pat, rep)
    else [s[0]] + ReplaceAll(s[1..], pat, rep)
  }

  /** Replacing a one-character string: every occurrence goes, and nothing else changes. */
  lemma {:induction false} ReplaceCharSpec(s: string, pat: char, rep: string, c: char)
    requires pat !in rep && c != pat && c !in rep
    ensures pat !in ReplaceAll(s, [pat], rep)
    ensures c in ReplaceAll(s, [pat], rep) <==> c in s
    decreases |s|
  {
    if |s| >= 1 {
      ReplaceCharSpec(s[1..], pat, rep, c);
      assert s == [s[0]] + s[1..];
      assert s[..1] == [s[0]];
    }
  }

  /** Replacing a string that does not occur changes nothing. */
  lemma {:induction false} ReplaceAbsentChar(s: string, pat: char, rep: string)
    requires pat !in s
    ensures ReplaceAll(s, [pat], rep) == s
    decreases |s|
  {
    if |s| >= 1 {
      ReplaceAbsentChar(s[1..], pat, rep);
      assert s == [s[0]] + s[1..];
    }
  }

  /** Python's `sep.join(parts)`. */
  function Join(sep: string, parts: seq<string>): string {
    if parts == [] then ""
    else if |parts| == 1 then parts[0]
    else parts[0] + sep + Join(sep, parts[1..])
  }

  /** Python's `os.path.basename` for `/`-separated paths: what follows the last `/`. */
  function Basename(path: string): (r: string)
    ensures '/' !in r
    ensures EndsWith(path, r)
  {
    if path == [] then ""
    else if path[|path| - 1] == '/' then ""
    else Basename(path[..|path| - 1]) + [path[|path| - 1]]
  }

  /** Python's `f"{s:>w}"`: pad on the left with spaces up to width `w`. */
  function PadLeft(s: string, w: nat): (r: string)
    ensures |r| == if |s| >= w then |s| else w
    ensures EndsWith(r, s)
    ensures forall k :: 0 <= k < |r| - |s| ==> r[k] == ' '
  {
    if |s| >= w then s else Spaces(w - |s|) + s
  }

  /** `n` spaces. */
  function Spaces(n: nat): (r: string)
    ensures |r| == n && forall k :: 0 <= k < n ==> r[k] == ' '
  {
    seq(n, _ => ' ')
  }

  /** `PadLeft` puts `w - |s|` spaces in front, or none. */
  lemma PadLeftSplit(s: string, w: nat)
    ensures PadLeft(s, w) == Spaces(if |s| >= w then 0 else w - |s|) + s
  {
  }

  function DigitChar(d: nat): char
    requires d < 10
  {
    ('0' as int + d) as char
  }

  /** Python's `str(n)` for a natural number. */
  function NatToString(n: nat): (r: string)
    ensures AllDigits(r)
    decreases n
  {
    if n < 10 then [DigitChar(n)] else NatToString(n / 10) + [DigitChar(n % 10)]
  }

  /** Python's `int(s)` on a string of digits. */
  function DigitsValue(s: string): nat
    requires forall i :: 0 <= i < |s| ==> IsDigit(s[i])
  {
    if s == [] then 0
    else
      assert IsDigit(s[|s| - 1]);
      DigitsValue(s[..|s| - 1]) * 10 + (s[|s| - 1] as int - '0' as int)
  }

  /** `int(str(n)) == n`. */
  lemma {:induction false} DigitsValueOfNatToString(n: nat)
    ensures DigitsValue(NatToString(n)) == n
    decreases n
  {
    var s := NatToString(n);
    if n >= 10 {
      DigitsValueOfNatToString(n / 10);
      assert s[..|s| - 1] == NatToString(n / 10);
    }
  }
}
