/** `clean_compile_options` and the final clean-up and ordering of
    `extract_compile_commands` in `main.py`: GCC flags picked out of free text. */
module CompileOptions {
  import opened Wrappers
  import opened Text
  import opened StableSort

  // ---------------------------------------------------------------------------------
  // Steps 1 and 2: parenthesised and bracketed remarks
  // ---------------------------------------------------------------------------------

  /** `re.sub` of `open [^close]* close` by a space: an `open` that has a `close` after it is
      removed together with everything up to the first such `close`; an `open` without a
      `close` after it stays. */
  function RemoveGroups(s: string, open: char, close: char): string
    decreases |s|
  {
    if s == [] then []
    else
      var j := ClosePos(s, close);
      if s[0] == open && j < |s| then " " + RemoveGroups(s[j + 1..], open, close)
      else [s[0]] + RemoveGroups(s[1..], open, close)
  }

  /** The first `close` after the first character, or the length when there is none. */
  function ClosePos(s: string, close: char): (j: nat)
    requires s != []
    ensures 1 <= j <= |s| && (j < |s| ==> s[j] == close)
    ensures forall k :: 1 <= k < j ==> s[k] != close
  {
    var other := c => c != close;
    SpanEndRun(s, 1, other);
    SpanEnd(s, 1, other)
  }

  /** Every character of the result is a space or comes from the input. */
  lemma {:induction false} RemoveGroupsChars(s: string, open: char, close: char, c: char)
    requires c != ' '
    ensures c in RemoveGroups(s, open, close) ==> c in s
    decreases |s|
  {
    if s != [] {
      var r := RemoveGroups(s, open, close);
      var j := ClosePos(s, close);
      if s[0] == open && j < |s| {
        assert r == " " + RemoveGroups(s[j + 1..], open, close);
        RemoveGroupsChars(s[j + 1..], open, close, c);
      } else {
        assert r == [s[0]] + RemoveGroups(s[1..], open, close);
        RemoveGroupsChars(s[1..], open, close, c);
      }
    }
  }

  /** No `open` in the text is followed, anywhere later, by a `close`. */
  predicate NoGroup(r: string, open: char, close: char) {
    forall i, j :: 0 <= i < j < |r| && r[i] == open ==> r[j] != close
  }

  /** No group is left after the removal. */
  lemma {:induction false} NoGroupLeft(s: string, open: char, close: char)
    requires open != close && open != ' ' && close != ' '
    ensures NoGroup(RemoveGroups(s, open, close), open, close)
    decreases |s|
  {
    if s != [] {
      var r := RemoveGroups(s, open, close);
      var j := ClosePos(s, close);
      if s[0] == open && j < |s| {
        var rest := RemoveGroups(s[j + 1..], open, close);
        NoGroupLeft(s[j + 1..], open, close);
        assert r == " " + rest;
        forall a, b | 0 < a < b < |r| && r[a] == open
          ensures r[b] != close
        {
          assert r[a] == rest[a - 1] && r[b] == rest[b - 1];
        }
      } else {
        var rest := RemoveGroups(s[1..], open, close);
        NoGroupLeft(s[1..], open, close);
        assert r == [s[0]] + rest;
        RemoveGroupsChars(s[1..], open, close, close);
        assert s[0] == open ==> close !in s[1..];
        forall a, b | 0 <= a < b < |r| && r[a] == open
          ensures r[b] != close
        {
          assert r[b] == rest[b - 1];
          if 0 < a {
            assert r[a] == rest[a - 1];
          }
        }
      }
    }
  }

  /** A text without `open` passes unchanged. */
  lemma {:induction false} RemoveGroupsAbsent(s: string, open: char, close: char)
    requires open !in s
    ensures RemoveGroups(s, open, close) == s
    decreases |s|
  {
    if s != [] {
      assert s[1..] == s[1..] && open !in s[1..];
      RemoveGroupsAbsent(s[1..], open, close);
      assert s == [s[0]] + s[1..];
    }
  }

  // ---------------------------------------------------------------------------------
  // Step 3: `e.g.` remarks
  // ---------------------------------------------------------------------------------

  /** `\be\.g\.` at `i`, letters in either case. */
  predicate ExampleAt(s: string, i: nat) {
    i + 4 <= |s| && (i == 0 || !IsWordChar(s[i - 1]))
    && (s[i] == 'e' || s[i] == 'E') && s[i + 1] == '.'
    && (s[i + 2] == 'g' || s[i + 2] == 'G') && s[i + 3] == '.'
  }

  /** `[^,\n]`. */
  predicate NotCommaNewline(c: char) {
    c != ',' && c != '\n'
  }

  /** The last position in `[lo, hi)` that does not hold a newline. */
  function LastNonNewline(s: string, lo: nat, hi: nat): (r: Option<nat>)
    requires lo <= hi <= |s|
    ensures r.Some? ==>
      (lo <= r.value < hi && s[r.value] != '\n' && forall k :: r.value < k < hi ==> s[k] == '\n')
    ensures r.None? ==> forall k :: lo <= k < hi ==> s[k] == '\n'
    decreases hi - lo
  {
    if hi == lo then None
    else if s[hi - 1] != '\n' then Some(hi - 1)
    else LastNonNewline(s, lo, hi - 1)
  }

  /** Where the match of `\be\.g\.\s*[^,\n]+` at `i` ends, if there is one. The run of
      whitespace is greedy; when nothing but a comma, a newline or the end follows it, the
      regex gives back whitespace until the last space that is not a newline. */
  function ExampleEnd(s: string, i: nat): (r: Option<nat>)
    requires i <= |s|
    ensures r.Some? ==> i + 4 < r.value <= |s|
  {
    if !ExampleAt(s, i) then None
    else
      var j := SpanEnd(s, i + 4, IsSpace);
      if j < |s| && NotCommaNewline(s[j]) then Some(SpanEnd(s, j, NotCommaNewline))
      else match LastNonNewline(s, i + 4, j)
        case None => None
        case Some(k) => Some(k + 1)
  }

  /** The regex matches at `i` exactly when `e.g.` is followed by whitespace and then a
      character other than a comma or a newline; the remark it removes holds no comma and
      runs to a comma, a newline or the end of the text. */
  lemma ExampleEndMeaning(s: string, i: nat)
    requires i <= |s|
    ensures ExampleEnd(s, i).Some? <==> ExampleAt(s, i) && exists k :: PhraseStart(s, i, k)
    ensures ExampleEnd(s, i).Some? ==> var e := ExampleEnd(s, i).value;
      (e == |s| || !NotCommaNewline(s[e])) && forall m :: i <= m < e ==> s[m] != ','
  {
    if ExampleAt(s, i) {
      var j := SpanEnd(s, i + 4, IsSpace);
      SpanEndRun(s, i + 4, IsSpace);
      if j < |s| && NotCommaNewline(s[j]) {
        SpanEndRun(s, j, NotCommaNewline);
        assert PhraseStart(s, i, j);
      } else {
        var l := LastNonNewline(s, i + 4, j);
        if l.Some? {
          assert PhraseStart(s, i, l.value);
        } else {
          forall k | i + 4 <= k < |s| && NotCommaNewline(s[k])
            ensures !PhraseStart(s, i, k)
          {
            if k > j {
              assert !IsSpace(s[j]);
            }
          }
        }
      }
    }
  }

  /** `\s*` can stop at `k`, where `[^,\n]` matches: whitespace from `i + 4` up to `k`. */
  predicate PhraseStart(s: string, i: nat, k: int) {
    i + 4 <= k < |s| && NotCommaNewline(s[k]) && forall m :: i + 4 <= m < k ==> IsSpace(s[m])
  }

  /** `re.sub(r'\be\.g\.\s*[^,\n]+', ' ', s, flags=re.IGNORECASE)` from position `i`: the
      `\b` looks at the original text, which is why the position is kept. */
  function StripExamples(s: string, i: nat): string
    requires i <= |s|
    decreases |s| - i
  {
    if i == |s| then []
    else match ExampleEnd(s, i)
      case Some(e) => " " + StripExamples(s, e)
      case None => [s[i]] + StripExamples(s, i + 1)
  }

  /** The number of commas in a text. */
  function Commas(s: string): nat
    decreases |s|
  {
    if s == [] then 0 else Commas(s[..|s| - 1]) + if s[|s| - 1] == ',' then 1 else 0
  }

  lemma {:induction false} CommasAppend(a: string, b: string)
    ensures Commas(a + b) == Commas(a) + Commas(b)
    decreases |b|
  {
    if b == [] {
      assert a + b == a;
    } else {
      var b' := b[..|b| - 1];
      CommasAppend(a, b');
      assert (a + b)[..|a + b| - 1] == a + b';
    }
  }

  lemma {:induction false} CommasNone(s: string)
    requires forall m :: 0 <= m < |s| ==> s[m] != ','
    ensures Commas(s) == 0
    decreases |s|
  {
    if s != [] {
      CommasNone(s[..|s| - 1]);
    }
  }

  /** Removing the remarks keeps every comma, so the flags listed after a remark survive. */
  lemma {:induction false} StripExamplesKeepsCommas(s: string, i: nat)
    requires i <= |s|
    ensures Commas(StripExamples(s, i)) == Commas(s[i..])
    decreases |s| - i
  {
    if i < |s| {
      var r := StripExamples(s, i);
      assert s[i..] == [s[i]] + s[i + 1..];
      match ExampleEnd(s, i)
      case Some(e) =>
        StripExamplesKeepsCommas(s, e);
        ExampleEndMeaning(s, i);
        assert s[i..] == s[i..e] + s[e..];
        CommasAppend(s[i..e], s[e..]);
        CommasNone(s[i..e]);
        CommasAppend(" ", StripExamples(s, e));
      case None =>
        StripExamplesKeepsCommas(s, i + 1);
        CommasAppend([s[i]], StripExamples(s, i + 1));
        CommasAppend([s[i]], s[i + 1..]);
    }
  }

  /** A text without any `e.g.` passes unchanged. */
  lemma {:induction false} StripExamplesAbsent(s: string, i: nat)
    requires i <= |s|
    requires forall k :: i <= k < |s| ==> !ExampleAt(s, k)
    ensures StripExamples(s, i) == s[i..]
    decreases |s| - i
  {
    if i < |s| {
      StripExamplesAbsent(s, i + 1);
      assert s[i..] == [s[i]] + s[i + 1..];
    }
  }

  // ---------------------------------------------------------------------------------
  // Step 4: the flags
  // ---------------------------------------------------------------------------------

  /** `[a-zA-Z0-9_\-=.,]`. */
  predicate IsFlagChar(c: char) {
    IsAsciiLetter(c) || IsDigit(c) || c == '_' || c == '-' || c == '=' || c == '.' || c == ','
  }

  /** `[0-3s]`. */
  predicate IsOptLevel(c: char) {
    c == '0' || c == '1' || c == '2' || c == '3' || c == 's'
  }

  /** Where the match of `-(?:O[0-3s]?|[a-zA-Z][a-zA-Z0-9_\-=.,]*)` at `i` ends, if there is
      one. The first alternative is tried first, so `-Ofast` gives `-O`. */
  function FlagEnd(s: string, i: nat): (r: Option<nat>)
    requires i <= |s|
    ensures r.Some? ==> i + 2 <= r.value <= |s|
  {
    if i + 2 > |s| || s[i] != '-' then None
    else if s[i + 1] == 'O' then Some(if i + 2 < |s| && IsOptLevel(s[i + 2]) then i + 3 else i + 2)
    else if IsAsciiLetter(s[i + 1]) then Some(SpanEnd(s, i + 2, IsFlagChar))
    else None
  }

  /** `re.findall` of the flag pattern from position `i`. */
  function Flags(s: string, i: nat): seq<string>
    requires i <= |s|
    decreases |s| - i
  {
    if i == |s| then []
    else match FlagEnd(s, i)
      case Some(e) => [s[i..e]] + Flags(s, e)
      case None => Flags(s, i + 1)
  }

  /** What a flag looks like: a dash, a letter, and either an optimisation level after `O`
      or any number of flag characters. */
  predicate IsToken(t: string) {
    |t| >= 2 && t[0] == '-' && IsAsciiLetter(t[1])
    && if t[1] == 'O' then |t| == 2 || (|t| == 3 && IsOptLevel(t[2]))
       else forall k :: 2 <= k < |t| ==> IsFlagChar(t[k])
  }

  /** Every flag found starts with a dash and has no whitespace in it. */
  lemma {:induction false} FlagsAreTokens(s: string, i: nat)
    requires i <= |s|
    ensures forall t :: t in Flags(s, i) ==> IsToken(t)
    decreases |s| - i
  {
    if i < |s| {
      match FlagEnd(s, i)
      case Some(e) =>
        FlagsAreTokens(s, e);
        SpanEndRun(s, i + 2, IsFlagChar);
        var t := s[i..e];
        assert forall k :: 2 <= k < |t| ==> t[k] == s[i + k];
      case None =>
        FlagsAreTokens(s, i + 1);
    }
  }

  /** One flag match only looks forward, so text in front shifts it. */
  lemma FlagEndShift(pre: string, s: string, i: nat)
    requires i <= |s|
    ensures FlagEnd(pre + s, |pre| + i)
      == if FlagEnd(s, i).Some? then Some(|pre| + FlagEnd(s, i).value) else None
  {
    var t := pre + s;
    var n := |pre|;
    if i + 2 <= |s| {
      assert t[n + i] == s[i] && t[n + i + 1] == s[i + 1];
      assert i + 2 < |s| ==> t[n + i + 2] == s[i + 2];
      if s[i] == '-' && s[i + 1] != 'O' && IsAsciiLetter(s[i + 1]) {
        SpanEndShift(pre, s, i + 2, IsFlagChar);
      }
    }
  }

  /** The flag scan only looks forward, so text in front shifts it. */
  lemma {:induction false} FlagsShift(pre: string, s: string, i: nat)
    requires i <= |s|
    ensures Flags(pre + s, |pre| + i) == Flags(s, i)
    decreases |s| - i
  {
    if i < |s| {
      FlagEndShift(pre, s, i);
      match FlagEnd(s, i)
      case Some(e) =>
        FlagsShift(pre, s, e);
        FlagShiftStep(pre, s, i, e);
      case None =>
        FlagsShift(pre, s, i + 1);
    }
  }

  /** One flag found at `i` in both texts, and the scans after it agree. */
  lemma FlagShiftStep(pre: string, s: string, i: nat, e: nat)
    requires i < |s| && FlagEnd(s, i) == Some(e) && FlagEnd(pre + s, |pre| + i) == Some(|pre| + e)
    requires Flags(pre + s, |pre| + e) == Flags(s, e)
    ensures Flags(pre + s, |pre| + i) == Flags(s, i)
  {
    ShiftedSlice(pre, s, i, e);
  }

  lemma ShiftedSlice(pre: string, s: string, i: nat, e: nat)
    requires i <= e <= |s|
    ensures (pre + s)[|pre| + i..|pre| + e] == s[i..e]
  {
    var t := pre + s;
    assert forall k :: 0 <= k < e - i ==> t[|pre| + i..|pre| + e][k] == s[i..e][k];
  }

  /** A flag at the start of a text, followed by the end or a space, is read back whole. */
  lemma TokenEnd(t: string, rest: string)
    requires IsToken(t) && (rest == [] || rest[0] == ' ')
    ensures FlagEnd(t + rest, 0) == Some(|t|)
  {
    var s := t + rest;
    assert forall k :: 0 <= k < |t| ==> s[k] == t[k];
    if t[1] != 'O' {
      SpanEndExact(s, 2, |t|, IsFlagChar);
    }
  }

  /** Joining flags with spaces and reading the flags back gives the same list. */
  lemma {:induction false} FlagsOfJoin(ts: seq<string>)
    requires forall t :: t in ts ==> IsToken(t)
    ensures Flags(Join(" ", ts), 0) == ts
    decreases |ts|
  {
    if |ts| == 1 {
      TokenEnd(ts[0], "");
      assert ts[0] + "" == ts[0];
      assert ts[0][0..|ts[0]|] == ts[0];
    } else if |ts| > 1 {
      var t := ts[0];
      var rest := Join(" ", ts[1..]);
      var s := t + " " + rest;
      assert s == t + (" " + rest);
      TokenEnd(t, " " + rest);
      assert s[0..|t|] == t;
      assert s[|t|] == ' ';
      assert Flags(s, |t|) == Flags(s, |t| + 1);
      assert s == (t + " ") + rest;
      FlagsShift(t + " ", rest, 0);
      FlagsOfJoin(ts[1..]);
      assert ts == [t] + ts[1..];
    }
  }

  // ---------------------------------------------------------------------------------
  // clean_compile_options
  // ---------------------------------------------------------------------------------

  /** The text once the parenthesised, bracketed and `e.g.` remarks are replaced by spaces. */
  function Remarkless(text: string): string {
    StripExamples(RemoveGroups(RemoveGroups(text, '(', ')'), '[', ']'), 0)
  }

  /** `clean_compile_options`: the flags of the text without its remarks, joined by spaces. */
  function CleanCompileOptions(text: string): string {
    if text == "" then "" else Join(" ", Flags(Remarkless(text), 0))
  }

  /** An empty text gives ""; otherwise the result is made of flags, reads back to exactly
      the flags found in the text without its remarks, and is "" only when there are none. */
  lemma CleanCompileOptionsMeaning(text: string)
    ensures text == "" ==> CleanCompileOptions(text) == ""
    ensures text != "" ==> Flags(CleanCompileOptions(text), 0) == Flags(Remarkless(text), 0)
    ensures forall t :: t in Flags(CleanCompileOptions(text), 0) ==> IsToken(t)
    ensures CleanCompileOptions(text) == "" <==> text == "" || Flags(Remarkless(text), 0) == []
  {
    var r := CleanCompileOptions(text);
    if text != "" {
      var ts := Flags(Remarkless(text), 0);
      FlagsAreTokens(Remarkless(text), 0);
      FlagsOfJoin(ts);
      if ts != [] {
        JoinNonEmpty(ts);
      }
    }
    FlagsAreTokens(r, 0);
  }

  /** Joined flags are never empty text. */
  lemma JoinNonEmpty(ts: seq<string>)
    requires ts != [] && forall t :: t in ts ==> IsToken(t)
    ensures Join(" ", ts) != ""
  {
    assert ts[0] in ts;
    if |ts| > 1 {
      assert |Join(" ", ts)| >= |ts[0]|;
    }
  }

  // ---------------------------------------------------------------------------------
  // extract_compile_commands: clean-up and ordering
  // ---------------------------------------------------------------------------------

  /** `re.sub(r'\s+', ' ', s)`: each run of whitespace becomes one space. */
  function CollapseSpaces(s: string): string
    decreases |s|
  {
    if s == [] then []
    else if IsSpace(s[0]) then " " + CollapseSpaces(s[SpanEnd(s, 0, IsSpace)..])
    else [s[0]] + CollapseSpaces(s[1..])
  }

  /** Single spaces only: every whitespace character is a space and none follows another. */
  predicate SingleSpaced(s: string) {
    forall k :: 0 <= k < |s| && IsSpace(s[k]) ==> s[k] == ' ' && (k + 1 == |s| || !IsSpace(s[k + 1]))
  }

  lemma {:induction false} CollapseSpacesSingle(s: string)
    ensures SingleSpaced(CollapseSpaces(s))
    ensures s != [] ==> CollapseSpaces(s) != [] && (IsSpace(s[0]) <==> IsSpace(CollapseSpaces(s)[0]))
    decreases |s|
  {
    if s != [] {
      var r := CollapseSpaces(s);
      if IsSpace(s[0]) {
        var rest := s[SpanEnd(s, 0, IsSpace)..];
        CollapseSpacesSingle(rest);
        assert r == " " + CollapseSpaces(rest);
      } else {
        CollapseSpacesSingle(s[1..]);
        assert r == [s[0]] + CollapseSpaces(s[1..]);
      }
    }
  }

  /** The whitespace normalisation of one option string. */
  function Normalize(opt: string): string {
    Strip(CollapseSpaces(opt))
  }

  /** A normalised option has single spaces only and none at either end. */
  lemma NormalizeShape(opt: string)
    ensures var r := Normalize(opt);
      SingleSpaced(r) && (r == [] || (r[0] != ' ' && r[|r| - 1] != ' '))
  {
    var c := CollapseSpaces(opt);
    CollapseSpacesSingle(opt);
    var l := LStrip(c);
    var r := RStrip(l);
    SingleSpacedSlice(c, |c| - |l|, |c|);
    assert l == c[|c| - |l|..|c|];
    SingleSpacedSlice(l, 0, |r|);
    assert r == l[0..|r|];
    assert r == Normalize(opt);
  }

  /** Part of a single-spaced text is single-spaced. */
  lemma SingleSpacedSlice(s: string, a: nat, b: nat)
    requires SingleSpaced(s) && a <= b <= |s|
    ensures SingleSpaced(s[a..b])
  {
    var t := s[a..b];
    forall k | 0 <= k < |t| && IsSpace(t[k])
      ensures t[k] == ' ' && (k + 1 == |t| || !IsSpace(t[k + 1]))
    {
      assert t[k] == s[a + k];
      if k + 1 < |t| {
        assert t[k + 1] == s[a + k + 1];
      }
    }
  }

  /** The loop over the found options: each is normalised and kept when not empty. */
  function Normalized(found: seq<string>): seq<string>
    decreases |found|
  {
    if found == [] then []
    else
      var n := Normalize(found[|found| - 1]);
      Normalized(found[..|found| - 1]) + if n == "" then [] else [n]
  }

  /** The kept options are exactly the non-empty normalisations of the found ones. */
  lemma {:induction false} NormalizedMeaning(found: seq<string>)
    ensures forall x :: x in Normalized(found) ==> x != "" && exists y :: y in found && x == Normalize(y)
    ensures forall y :: y in found && Normalize(y) != "" ==> Normalize(y) in Normalized(found)
    ensures |Normalized(found)| <= |found|
    decreases |found|
  {
    if found != [] {
      var init := found[..|found| - 1];
      NormalizedMeaning(init);
      forall y | y in found && Normalize(y) != ""
        ensures Normalize(y) in Normalized(found)
      {
        if y in init {
          assert Normalize(y) in Normalized(init);
        } else {
          assert y == found[|found| - 1];
        }
      }
      forall x | x in Normalized(found)
        ensures x != "" && exists y :: y in found && x == Normalize(y)
      {
        if x in Normalized(init) {
          var y :| y in init && x == Normalize(y);
          assert y in found;
        } else {
          assert found[|found| - 1] in found;
        }
      }
    }
  }

  /** `re.search(r'-O[0-3s]?\b', x)` succeeds at `i`. */
  predicate OptLevelAt(x: string, i: nat) {
    i + 2 <= |x| && x[i] == '-' && x[i + 1] == 'O'
    && (i + 2 == |x| || !IsWordChar(x[i + 2])
        || (IsOptLevel(x[i + 2]) && (i + 3 == |x| || !IsWordChar(x[i + 3]))))
  }

  predicate HasOptLevel(x: string) {
    exists i: nat :: i + 2 <= |x| && OptLevelAt(x, i)
  }

  /** The sort key `(-has_o, -len(x))` of `x` is at most that of `y`. */
  predicate RankLe(x: string, y: string) {
    (HasOptLevel(x) && !HasOptLevel(y)) || (HasOptLevel(x) == HasOptLevel(y) && |x| >= |y|)
  }

  lemma RankLeOrder()
    ensures Total(RankLe) && Transitive(RankLe)
  {
  }

  /** The sort at the end: by the key when there is more than one option; a list of one
      option or none is left as it is. */
  function Order(cleaned: seq<string>): seq<string> {
    if |cleaned| > 1 then Sort(cleaned, RankLe) else cleaned
  }

  /** The normalising loop of `extract_compile_commands`. */
  method NormalizeOptions(found: seq<string>) returns (cleaned: seq<string>)
    ensures cleaned == Normalized(found)
  {
    cleaned := [];
    var i := 0;
    while i < |found|
      invariant 0 <= i <= |found|
      invariant cleaned == Normalized(found[..i])
    {
      assert found[..i + 1][..i] == found[..i];
      var opt := Normalize(found[i]);
      if opt != "" {
        cleaned := cleaned + [opt];
      }
      i := i + 1;
    }
    assert found[..i] == found;
  }

  /** The end of `extract_compile_commands`, given the options the five extraction methods
      found, in the order the set yields them. */
  method FinishCompileCommands(found: seq<string>) returns (result: seq<string>)
    ensures result == Order(Normalized(found))
  {
    var cleaned := NormalizeOptions(found);
    result := Order(cleaned);
  }

  /** The ordered list holds the same options; every option with `-O` comes before every
      option without, options alike in that come longest first, and the first option is the
      earliest of those ranked best. */
  lemma {:induction false} OrderMeaning(cleaned: seq<string>) returns (best: nat)
    requires cleaned != []
    ensures var r := Order(cleaned);
      multiset(r) == multiset(cleaned)
      && (forall i, j :: 0 <= i < j < |r| ==> RankLe(r[i], r[j]))
      && best < |cleaned| && r[0] == cleaned[best]
      && (forall j :: 0 <= j < |cleaned| ==> RankLe(cleaned[best], cleaned[j]))
      && (forall j :: 0 <= j < best ==> !RankLe(cleaned[j], cleaned[best]))
  {
    RankLeOrder();
    if |cleaned| > 1 {
      SortSorted(cleaned, RankLe);
      best := SortHead(cleaned, RankLe);
    } else {
      best := 0;
    }
  }
}
