/** The row matcher of the step "history should contain {cmd} with action
    {act} and {alt} packages": the output of `dnf history` is a banner of
    three lines followed by `|`-separated rows, and the step passes when some
    row offers all three expected words. */
module History {
  import opened Base
  import opened Text

  /** The words a row offers: its stripped columns followed by the
      whitespace-separated tokens of the last column, which may hold a
      transaction count and a marker together, as in "1 >". */
  function RowWords(line: string): seq<string> {
    var cols := StripPieces(line, '|');
    cols + Words(cols[|cols| - 1])
  }

  /** `set([cmd, act, alt]).issubset(set(words))`. */
  predicate Offers(words: seq<string>, cmd: string, act: string, alt: string) {
    {cmd, act, alt} <= (set w | w in words)
  }

  /** The subset test for the row `line`. */
  predicate RowMatches(line: string, cmd: string, act: string, alt: string) {
    Offers(RowWords(line), cmd, act, alt)
  }

  /** Some row of `rows` matches. */
  predicate AnyRowMatches(rows: seq<string>, cmd: string, act: string, alt: string) {
    exists i :: 0 <= i < |rows| && RowMatches(rows[i], cmd, act, alt)
  }

  /** The verdict on the listing `text`: 'No output' unless it has more than
      three lines; otherwise, once the first three lines are dropped, a pass
      exactly when one of the remaining rows matches. */
  function HistoryOutcome(text: string, cmd: string, act: string, alt: string): Outcome {
    var lines := Split(text, '\n');
    if |lines| <= 3 then Fail(NoOutput)
    else Check(AnyRowMatches(lines[3..], cmd, act, alt))
  }

  /** A row matches exactly when each of the three words is among its words,
      whatever their order and whichever columns they come from. */
  lemma RowMatchesIff(line: string, cmd: string, act: string, alt: string)
    ensures RowMatches(line, cmd, act, alt) <==>
      cmd in RowWords(line) && act in RowWords(line) && alt in RowWords(line)
    ensures RowMatches(line, cmd, act, alt) == RowMatches(line, alt, cmd, act)
    ensures RowMatches(line, cmd, act, alt) == RowMatches(line, act, cmd, alt)
  {
  }

  /** Every word of a row is stripped and free of `|`, so a query word with
      surrounding whitespace or a `|` in it is never matched. */
  lemma RowWordsShape(line: string, w: string)
    requires w in RowWords(line)
    ensures Trimmed(w) && '|' !in w
  {
    var cols := StripPieces(line, '|');
    if w in cols {
      var k :| 0 <= k < |cols| && cols[k] == w;
      StripPiecesShape(line, '|', k);
    } else {
      var last := cols[|cols| - 1];
      assert w in Words(last);
      WordsShape(last, w);
      if '|' in w {
        WordsKeep(last, w, '|');
        StripPiecesShape(line, '|', |cols| - 1);
      }
    }
  }

  lemma UnmatchableQuery(line: string, cmd: string, act: string, alt: string)
    requires !Trimmed(cmd) || '|' in cmd
    ensures !RowMatches(line, cmd, act, alt)
  {
    if RowMatches(line, cmd, act, alt) {
      RowWordsShape(line, cmd);
    }
  }

  /** 'No output' is reported exactly when the text has fewer than three
      newlines, that is at most three lines. */
  lemma NoOutputIff(text: string, cmd: string, act: string, alt: string)
    ensures HistoryOutcome(text, cmd, act, alt) == Fail(NoOutput) <==> multiset(text)['\n'] < 3
  {
    SplitLength(text, '\n');
  }

  /** The first three lines are never examined: below any three-line banner,
      the verdict depends only on the rows. */
  lemma BannerIgnored(banner: seq<string>, rows: seq<string>, cmd: string, act: string, alt: string)
    requires |banner| == 3 && |rows| >= 1
    requires forall k :: 0 <= k < |banner + rows| ==> '\n' !in (banner + rows)[k]
    ensures HistoryOutcome(Join(banner + rows, '\n'), cmd, act, alt) == Check(AnyRowMatches(rows, cmd, act, alt))
  {
    SplitJoin(banner + rows, '\n');
    assert (banner + rows)[3..] == rows;
  }

  /** One more row that does not match extends the run of rows that do not. */
  lemma NoMatchSoFar(rows: seq<string>, i: nat, cmd: string, act: string, alt: string)
    requires i < |rows| && !Offers(RowWords(rows[i]), cmd, act, alt)
    requires forall k :: 0 <= k < i ==> !RowMatches(rows[k], cmd, act, alt)
    ensures forall k :: 0 <= k < i + 1 ==> !RowMatches(rows[k], cmd, act, alt)
  {
  }

  /** The step's loop: drop the banner (`del lines[:3]`), then scan the rows
      and stop at the first that matches. */
  method FindHistoryRow(text: string, cmd: string, act: string, alt: string) returns (o: Outcome)
    ensures o == HistoryOutcome(text, cmd, act, alt)
  {
    var lines := Split(text, '\n');
    if |lines| <= 3 {
      return Fail(NoOutput);
    }
    lines := lines[3..];
    var matched := false;
    var i := 0;
    while i < |lines|
      invariant 0 <= i <= |lines|
      invariant forall k :: 0 <= k < i ==> !RowMatches(lines[k], cmd, act, alt)
    {
      var words := RowWords(lines[i]);
      if Offers(words, cmd, act, alt) {
        matched := true;
        break;
      }
      NoMatchSoFar(lines, i, cmd, act, alt);
      i := i + 1;
    }
    o := Check(matched);
  }

  lemma ExampleColumns(line: string)
    requires Split(line, '|') == ["Install ", " pkg ", " 1 >"]
    ensures StripPieces(line, '|') == ["Install", "pkg", "1 >"]
  {
    StripExamples();
  }

  lemma StripExamples()
    ensures Strip("Install ") == "Install"
    ensures Strip(" pkg ") == "pkg"
    ensures Strip(" 1 >") == "1 >"
  {
    StripInstall();
    StripPkg();
    StripCount();
  }

  lemma StripInstall()
    ensures Strip("Install ") == "Install"
  {
  }

  lemma StripPkg()
    ensures Strip(" pkg ") == "pkg"
  {
  }

  lemma StripCount()
    ensures Strip(" 1 >") == "1 >"
  {
  }

  lemma ExampleWords()
    ensures Words("1 >") == ["1", ">"]
  {
    var s := "1 >";
    assert s[1..] == " >" && " >"[1..] == ">";
    assert WordLength(" >") == 0;
    assert WordLength(s) == 1;
    assert s[..1] == "1";
    WordsOfWord(">");
    assert Words(" >") == [">"];
    assert Words(s) == ["1"] + Words(" >");
  }

  lemma ExampleRowWords(line: string)
    requires Split(line, '|') == ["Install ", " pkg ", " 1 >"]
    ensures RowWords(line) == ["Install", "pkg", "1 >", "1", ">"]
  {
    var cols := StripPieces(line, '|');
    assert cols == ["Install", "pkg", "1 >"] by {
      ExampleColumns(line);
    }
    assert Words(cols[|cols| - 1]) == ["1", ">"] by {
      ExampleWords();
    }
  }

  /** The example row "Install | pkg | 1 >" offers "Install", "pkg", "1 >",
      "1" and ">", so it matches the words "Install", "pkg" and "1". */
  lemma ExampleRow(line: string)
    requires Split(line, '|') == ["Install ", " pkg ", " 1 >"]
    ensures RowWords(line) == ["Install", "pkg", "1 >", "1", ">"]
    ensures RowMatches(line, "1", "Install", "pkg")
  {
    ExampleRowWords(line);
    var words := RowWords(line);
    assert words[3] == "1" && words[0] == "Install" && words[1] == "pkg";
  }

  lemma ExampleListing()
    ensures Split("Install | pkg | 1 >", '|') == ["Install ", " pkg ", " 1 >"]
  {
    var parts := ["Install ", " pkg ", " 1 >"];
    assert Join(parts, '|') == "Install | pkg | 1 >";
    SplitJoin(parts, '|');
  }
}
