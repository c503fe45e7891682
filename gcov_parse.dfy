/** `parse_gcov_file` in `main.py`: a gcov file as a dictionary from line number to
    count and source text. */
module GcovParse {
  import opened Wrappers
  import opened Text
  import opened GcovLines

  /** What the dictionary holds for one line: the stripped count and the source text. */
  type GcovData = map<nat, (string, string)>

  /** The dictionary after the given lines have been read: each matching line (pattern
      `^\s*([#\-\d]+)\s*:\s*(\d+)\s*:(.*)$`) sets the entry of its line number, a later
      line overwriting an earlier one; other lines are skipped. */
  function Parsed(lines: seq<string>): GcovData
    decreases |lines|
  {
    if lines == [] then map[] else Update(Parsed(lines[..|lines| - 1]), lines[|lines| - 1])
  }

  /** One line read into the dictionary. */
  function Update(m: GcovData, line: string): GcovData {
    match MatchLine(line, true)
    case None => m
    case Some(g) => m[g.lineNo := (Strip(g.count), g.code)]
  }

  /** The file read line by line; a missing file gives an empty dictionary. */
  method ParseGcovFile(gcovFile: Option<seq<string>>) returns (result: GcovData)
    ensures gcovFile.None? ==> result == map[]
    ensures gcovFile.Some? ==> result == Parsed(gcovFile.value)
  {
    result := map[];
    if gcovFile.None? {
      return;
    }
    var lines := gcovFile.value;
    var i := 0;
    while i < |lines|
      invariant 0 <= i <= |lines|
      invariant result == Parsed(lines[..i])
    {
      ParsedSnoc(lines, i);
      var m := MatchLine(lines[i], true);
      if m.Some? {
        result := result[m.value.lineNo := (Strip(m.value.count), m.value.code)];
      }
      i := i + 1;
    }
    assert lines[..i] == lines;
  }

  /** Reading one more line updates the dictionary with it. */
  lemma ParsedSnoc(lines: seq<string>, i: nat)
    requires i < |lines|
    ensures Parsed(lines[..i + 1]) == Update(Parsed(lines[..i]), lines[i])
  {
    assert lines[..i + 1][..i] == lines[..i];
  }

  /** Line `i` of the file matches and carries line number `n`. */
  predicate MatchesAt(lines: seq<string>, i: int, n: nat) {
    0 <= i < |lines| && MatchLine(lines[i], true).Some? && MatchLine(lines[i], true).value.lineNo == n
  }

  /** A line number is in the dictionary only when some line of the file matched with it. */
  lemma {:induction false} ParsedOnlyMatched(lines: seq<string>, n: nat)
    ensures n in Parsed(lines) ==> exists i :: MatchesAt(lines, i, n)
    decreases |lines|
  {
    if lines != [] && n in Parsed(lines) {
      var k := |lines| - 1;
      if !MatchesAt(lines, k, n) {
        ParsedOnlyMatched(lines[..k], n);
        var i :| MatchesAt(lines[..k], i, n);
        assert MatchesAt(lines, i, n);
      }
    }
  }

  /** The entry of a line number comes from the last line that matched with it: a later
      line overwrites an earlier one. */
  lemma {:induction false} ParsedLastWins(lines: seq<string>, i: nat, n: nat)
    requires MatchesAt(lines, i, n)
    requires forall j :: i < j < |lines| ==> !MatchesAt(lines, j, n)
    ensures n in Parsed(lines)
    ensures Parsed(lines)[n] == (Strip(MatchLine(lines[i], true).value.count), MatchLine(lines[i], true).value.code)
    decreases |lines|
  {
    var k := |lines| - 1;
    var init := lines[..k];
    assert Parsed(lines) == Update(Parsed(init), lines[k]);
    if i < k {
      assert init[i] == lines[i];
      forall j | i < j < |init|
        ensures !MatchesAt(init, j, n)
      {
        assert init[j] == lines[j];
        assert !MatchesAt(lines, j, n);
      }
      ParsedLastWins(init, i, n);
      assert !MatchesAt(lines, k, n);
      UpdateOther(Parsed(init), lines[k], n);
    } else {
      assert i == k;
      UpdateSame(Parsed(init), lines[k]);
      var g := MatchLine(lines[k], true).value;
      assert g.lineNo == n;
    }
  }

  /** A matching line sets the entry of its own line number. */
  lemma UpdateSame(m: GcovData, line: string)
    requires MatchLine(line, true).Some?
    ensures var g := MatchLine(line, true).value;
      g.lineNo in Update(m, line) && Update(m, line)[g.lineNo] == (Strip(g.count), g.code)
  {
  }

  /** A line that does not carry line number `n` leaves its entry alone. */
  lemma UpdateOther(m: GcovData, line: string, n: nat)
    requires MatchLine(line, true).None? || MatchLine(line, true).value.lineNo != n
    ensures n in Update(m, line) <==> n in m
    ensures n in m ==> Update(m, line)[n] == m[n]
  {
  }

  /** Reading a printed entry sets that entry's line number to its count and source text. */
  lemma ParsePrinted(lines: seq<string>, x: GcovLine)
    requires IsCountText(x.count) && '\n' !in x.code
    ensures Parsed(lines + [FormatLine(x.count, x.lineNo, x.code) + "\n"])
      == Parsed(lines)[x.lineNo := (x.count, x.code)]
  {
    MatchFormatted(x.count, x.lineNo, x.code, true, "\n");
    StripCount(x.count);
    ParseMatched(lines, FormatLine(x.count, x.lineNo, x.code) + "\n", x);
  }

  /** A line that matches with an already stripped count sets its entry. */
  lemma ParseMatched(lines: seq<string>, line: string, x: GcovLine)
    requires MatchLine(line, true) == Some(x) && Strip(x.count) == x.count
    ensures Parsed(lines + [line]) == Parsed(lines)[x.lineNo := (x.count, x.code)]
  {
    var all := lines + [line];
    assert all[..|lines|] == lines;
  }
}
