/**
 The cases of tests/test_failure_message.py, stated over the model. A long
 expected text is written as a concatenation of short pieces; the value is the
 one the test compares against.
 */
module FailureMessageTests {
  import opened Wrappers
  import opened Text
  import opened Escape
  import opened Shorten
  import opened Markup
  import opened Cells
  import opened FailureMessage

  /** Escaping a character in front of a text escapes the two apart. */
  lemma EscapeCons(c: char, rest: string)
    ensures EscapeFailureMessage([c] + rest) == EscapeChar(c) + EscapeFailureMessage(rest)
  {
    EscapeAppend([c], rest);
    EscapeOne(c);
  }

  /** Seven characters escaped one by one. */
  lemma EscapeSeven(c0: char, c1: char, c2: char, c3: char, c4: char, c5: char, c6: char)
    ensures EscapeFailureMessage([c0, c1, c2, c3, c4, c5, c6]) ==
      EscapeChar(c0) + (EscapeChar(c1) + (EscapeChar(c2) + (EscapeChar(c3) + (EscapeChar(c4) + (EscapeChar(c5) + EscapeChar(c6))))))
  {
    assert [c0, c1, c2, c3, c4, c5, c6] == [c0] + [c1, c2, c3, c4, c5, c6];
    EscapeCons(c0, [c1, c2, c3, c4, c5, c6]);
    EscapeSix(c1, c2, c3, c4, c5, c6);
  }

  /** Six characters escaped one by one. */
  lemma EscapeSix(c1: char, c2: char, c3: char, c4: char, c5: char, c6: char)
    ensures EscapeFailureMessage([c1, c2, c3, c4, c5, c6]) ==
      EscapeChar(c1) + (EscapeChar(c2) + (EscapeChar(c3) + (EscapeChar(c4) + (EscapeChar(c5) + EscapeChar(c6)))))
  {
    assert [c1, c2, c3, c4, c5, c6] == [c1] + [c2, c3, c4, c5, c6];
    assert [c2, c3, c4, c5, c6] == [c2] + [c3, c4, c5, c6];
    assert [c3, c4, c5, c6] == [c3] + [c4, c5, c6];
    assert [c4, c5, c6] == [c4] + [c5, c6];
    assert [c5, c6] == [c5] + [c6];
    EscapeCons(c1, [c2, c3, c4, c5, c6]);
    EscapeCons(c2, [c3, c4, c5, c6]);
    EscapeCons(c3, [c4, c5, c6]);
    EscapeCons(c4, [c5, c6]);
    EscapeCons(c5, [c6]);
    EscapeOne(c6);
  }

  /**
   Every character of the table escaped in one message, the `&` of each entity
   escaped again; the carriage return leaves nothing (the empty piece).
   */
  lemma EscapeEveryCharacter(s: string)
    requires s == "\"'<>&\r\n"
    ensures EscapeFailureMessage(s) == "&amp;quot;" + ("&amp;apos;" + ("&amp;lt;" + ("&amp;gt;" + ("&amp;" + ("" + "<br>")))))
  {
    assert s == ['"', '\'', '<', '>', '&', '\r', '\n'];
    var q, a, lt, gt, amp, cr, lf := '"', '\'', '<', '>', '&', '\r', '\n';
    assert EscapeChar(q) == "&amp;quot;" && EscapeChar(a) == "&amp;apos;";
    assert EscapeChar(lt) == "&amp;lt;" && EscapeChar(gt) == "&amp;gt;";
    assert EscapeChar(amp) == "&amp;" && EscapeChar(cr) == "" && EscapeChar(lf) == "<br>";
    EscapeSeven(q, a, lt, gt, amp, cr, lf);
  }

  /** Backslashes and a literal `\n` pair are kept; only the real line feed becomes a tag. */
  lemma EscapeKeepsBackslashes(s: string)
    requires s == "\\ \\n \n"
    ensures EscapeFailureMessage(s) == "\\" + (" " + ("\\" + ("n" + (" " + "<br>"))))
  {
    assert s == ['\\', ' ', '\\', 'n', ' ', '\n'];
    var b, sp, n, lf := '\\', ' ', 'n', '\n';
    assert EscapeChar(b) == "\\" && EscapeChar(sp) == " " && EscapeChar(n) == "n" && EscapeChar(lf) == "<br>";
    EscapeSix(b, sp, b, n, sp, lf);
  }

  /** A path of three pieces is left as it is. */
  lemma ShortPathKept(msg: string)
    requires msg == "short" + "/" + "file" + "/" + "path.txt"
    ensures ShortenFilePaths(msg, [msg]) == msg
  {
    var a2 := "short" + "/" + "file";
    SplitWithoutSeparator("short", '/');
    SplitSnoc("short", "file", '/');
    SplitSnoc(a2, "path.txt", '/');
    ShortenWholeMessage(msg);
  }

  /** Three pieces joined by `/`. */
  lemma JoinThree(a: string, b: string, c: string)
    ensures Join([a, b, c], "/") == a + "/" + b + "/" + c
  {
    assert [a, b, c][1..] == [b, c];
    assert [b, c][1..] == [c];
    assert Join([b, c], "/") == b + "/" + c;
    assert a + "/" + (b + "/" + c) == a + "/" + b + "/" + c;
  }

  /** Seven pieces without a separator, joined by `/`, split back into the seven. */
  lemma SplitSeven(p0: string, p1: string, p2: string, p3: string, p4: string, p5: string, p6: string)
    requires '/' !in p0 && '/' !in p1 && '/' !in p2 && '/' !in p3
    requires '/' !in p4 && '/' !in p5 && '/' !in p6
    ensures Split(p0 + "/" + p1 + "/" + p2 + "/" + p3 + "/" + p4 + "/" + p5 + "/" + p6, '/') == [p0, p1, p2, p3, p4, p5, p6]
  {
    var a2 := p0 + "/" + p1;
    var a3 := a2 + "/" + p2;
    var a4 := a3 + "/" + p3;
    var a5 := a4 + "/" + p4;
    var a6 := a5 + "/" + p5;
    SplitWithoutSeparator(p0, '/');
    SplitSnoc(p0, p1, '/');
    SplitSnoc(a2, p2, '/');
    SplitSnoc(a3, p3, '/');
    SplitSnoc(a4, p4, '/');
    SplitSnoc(a5, p5, '/');
    SplitSnoc(a6, p6, '/');
  }

  /** The test's long path is split into its seven pieces. */
  lemma LongPathPieces(msg: string)
    requires msg == "very" + "/" + "long" + "/" + "file" + "/" + "path" + "/" + "should" + "/" + "be" + "/" + "shortened.txt"
    ensures Split(msg, '/') == ["very", "long", "file", "path", "should", "be", "shortened.txt"]
    ensures Count(msg, '/') == 6
  {
    SplitSeven("very", "long", "file", "path", "should", "be", "shortened.txt");
  }

  /** The test's long path, shortened on its own. */
  lemma LongPathShortForm(path: string)
    requires path == "very" + "/" + "long" + "/" + "file" + "/" + "path" + "/" + "should" + "/" + "be" + "/" + "shortened.txt"
    ensures Count(path, '/') >= 3
    ensures ShortenPath(path) == ".../" + ("should" + "/" + "be" + "/" + "shortened.txt")
  {
    LongPathPieces(path);
    var parts := Split(path, '/');
    ShortenByPieces(path, parts);
    assert parts[|parts| - 3..] == ["should", "be", "shortened.txt"];
    JoinThree("should", "be", "shortened.txt");
  }

  /** A path of seven pieces keeps its last three. */
  lemma LongPathShortened(msg: string)
    requires msg == "very" + "/" + "long" + "/" + "file" + "/" + "path" + "/" + "should" + "/" + "be" + "/" + "shortened.txt"
    ensures ShortenFilePaths(msg, [msg]) == ".../" + ("should" + "/" + "be" + "/" + "shortened.txt")
  {
    LongPathShortForm(msg);
    ShortenWholeMessage(msg);
  }

  /** A leading `/` changes nothing in the shortened form. */
  lemma LeadingSlashShortened(msg: string, tail: string)
    requires tail == "very" + "/" + "long" + "/" + "file" + "/" + "path" + "/" + "should" + "/" + "be" + "/" + "shortened.txt"
    requires msg == "/" + tail
    ensures ShortenFilePaths(msg, [msg]) == ".../" + ("should" + "/" + "be" + "/" + "shortened.txt")
  {
    LongPathShortForm(tail);
    ShortenIgnoresHead("", tail);
    assert "" + ['/'] + tail == msg;
    ShortenWholeMessage(msg);
  }

  /** The counts of the test payload. */
  lemma SummaryOfPayload()
    ensures SummaryLine(1, 2, 3) ==
      CompletedOpen + "6" + TestsWith + "1" + FailedClose + "2" + PassedAnd + "3" + SkippedClose
  {
    SummaryShowsCounts(1, 2, 3);
  }

  const KnownFlake := Flake([FailedInDefaultBranch, ConsecutiveDiffOutcomes], false)

  /** A description with two flags: one bullet per flag, each closed by a line break. */
  lemma DescriptionWithTwoFlags(suite: string, name: string, f1: string, f2: string)
    ensures GenerateTestDescription(suite, name, Some([f1, f2]), None) ==
      SuiteOpen + suite + NameOpen + name + Br + FlagsOpen + (FlagBullet + f1) + Br + (FlagBullet + f2) + Br + PreClose
  {
    var items := FlagItems([f1, f2]);
    assert items == [FlagBullet + f1, FlagBullet + f2];
    assert Join(items, Br) == (FlagBullet + f1) + Br + (FlagBullet + f2) by {
      assert items[1..] == [FlagBullet + f2];
    }
  }

  /** The description cell of a known flaky test with two flags. */
  lemma DescriptionOfFlakyTest(suite: string, name: string, flags: seq<string>)
    requires suite == "hello" && name == "world" && flags == ["i", "am"]
    ensures GenerateTestDescription(suite, name, Some(flags), Some(KnownFlake)) ==
      FlakeTitleOpen + KnownFlakeTitle + BoldClose
      + (SuiteOpen + suite + NameOpen + name + Br
         + FlagsOpen + (FlagBullet + "i") + Br + (FlagBullet + "am") + Br + PreClose)
  {
    DescriptionWithTwoFlags(suite, name, flags[0], flags[1]);
    FlakePrefixesDescription(suite, name, Some(flags), KnownFlake);
  }

  /** The description cell of a test that is not flaky. */
  lemma DescriptionOfPlainTest(suite: string, name: string, flags: seq<string>)
    requires (suite == "bar" || suite == "hello") && name == "world" && flags == ["i", "am"]
    ensures GenerateTestDescription(suite, name, Some(flags), None) ==
      SuiteOpen + suite + NameOpen + name + Br
      + FlagsOpen + (FlagBullet + "i") + Br + (FlagBullet + "am") + Br + PreClose
  {
    DescriptionWithTwoFlags(suite, name, flags[0], flags[1]);
  }

  /** A message with no path and nothing to escape is shown as it is. */
  lemma PlainMessage(x: string, findPaths: string -> seq<string>)
    requires x == "hello world" || x == "foo"
    requires findPaths(x) == []
    ensures FailureText(Some(x), findPaths) == x
  {
    assert forall i :: 0 <= i < |x| ==> !IsEscaped(x[i]);
    FailureTextOfMessage(x, findPaths);
  }

  /** The symptom lines of two symptoms, joined without a separator. */
  lemma TwoSymptomLines(s1: FlakeSymptomType, s2: FlakeSymptomType)
    ensures Join(SymptomLines([s1, s2]), "") == SymptomLine(s1) + SymptomLine(s2)
  {
    SymptomLinesOfTwo(s1, s2);
    JoinTwo(SymptomLine(s1), SymptomLine(s2));
  }

  lemma SymptomLinesOfTwo(s1: FlakeSymptomType, s2: FlakeSymptomType)
    ensures SymptomLines([s1, s2]) == [SymptomLine(s1), SymptomLine(s2)]
  {
    assert [s1, s2][1..] == [s2];
  }

  lemma JoinTwo(a: string, b: string)
    ensures Join([a, b], "") == a + b
  {
    assert [a, b][1..] == [b];
    assert a + "" + b == a + b;
  }

  /** The information cell of the flaky test: one line per symptom, then the message. */
  lemma InfoOfFlakyTest(x: string, findPaths: string -> seq<string>)
    requires x == "hello world" && findPaths(x) == []
    ensures GenerateFailureInfo(Some(x), findPaths, Some(KnownFlake)) ==
      (SymptomOpen + DefaultBranchText + BoldClose) + (SymptomOpen + DiffOutcomesText + BoldClose)
      + (PreOpen + x + PreClose)
  {
    FlakePrefixesInfo(Some(x), findPaths, KnownFlake);
    TwoSymptomLines(FailedInDefaultBranch, ConsecutiveDiffOutcomes);
    InfoOfPlainTest(x, findPaths);
  }

  /** The information cell of a test that is not flaky. */
  lemma InfoOfPlainTest(x: string, findPaths: string -> seq<string>)
    requires (x == "foo" || x == "hello world") && findPaths(x) == []
    ensures GenerateFailureInfo(Some(x), findPaths, None) == PreOpen + x + PreClose
  {
    PlainMessage(x, findPaths);
  }

  /** The row of the flaky failure: its two cells between the table's bars. */
  lemma RowOfFlakyTest(suite: string, name: string, flags: seq<string>, x: string, findPaths: string -> seq<string>)
    requires suite == "hello" && name == "world" && flags == ["i", "am"]
    requires x == "hello world" && findPaths(x) == []
    ensures Row(Failure(name, suite, Some(x), Some(flags), Some(KnownFlake)), findPaths) ==
      "| " + (FlakeTitleOpen + KnownFlakeTitle + BoldClose
              + (SuiteOpen + suite + NameOpen + name + Br
                 + FlagsOpen + (FlagBullet + "i") + Br + (FlagBullet + "am") + Br + PreClose))
      + " | " + ((SymptomOpen + DefaultBranchText + BoldClose) + (SymptomOpen + DiffOutcomesText + BoldClose)
                 + (PreOpen + x + PreClose)) + " |"
  {
    DescriptionOfFlakyTest(suite, name, flags);
    InfoOfFlakyTest(x, findPaths);
  }

  /** The row of the failure that is not flaky. */
  lemma RowOfPlainTest(suite: string, name: string, flags: seq<string>, x: string, findPaths: string -> seq<string>)
    requires (suite == "bar" && x == "foo") || (suite == "hello" && x == "hello world")
    requires name == "world" && flags == ["i", "am"] && findPaths(x) == []
    ensures Row(Failure(name, suite, Some(x), Some(flags), None), findPaths) ==
      "| " + (SuiteOpen + suite + NameOpen + name + Br
              + FlagsOpen + (FlagBullet + "i") + Br + (FlagBullet + "am") + Br + PreClose)
      + " | " + (PreOpen + x + PreClose) + " |"
  {
    DescriptionOfPlainTest(suite, name, flags);
    InfoOfPlainTest(x, findPaths);
  }

  /**
   The code takes the flake from the failure itself. The test's first failure
   has no flake of its own (the test files it under its `test_id` in the
   payload instead), so as the code reads it that failure gets the plain row,
   not the flaky row the test expects.
   */
  lemma FirstRowAsRead(suite: string, name: string, flags: seq<string>, x: string, findPaths: string -> seq<string>)
    requires suite == "hello" && name == "world" && flags == ["i", "am"]
    requires x == "hello world" && findPaths(x) == []
    ensures Row(Failure(name, suite, Some(x), Some(flags), None), findPaths) ==
      "| " + (SuiteOpen + suite + NameOpen + name + Br
              + FlagsOpen + (FlagBullet + "i") + Br + (FlagBullet + "am") + Br + PreClose)
      + " | " + (PreOpen + x + PreClose) + " |"
    ensures Row(Failure(name, suite, Some(x), Some(flags), None), findPaths)
      != Row(Failure(name, suite, Some(x), Some(flags), Some(KnownFlake)), findPaths)
  {
    RowOfPlainTest(suite, name, flags, x, findPaths);
    RowOfFlakyTest(suite, name, flags, x, findPaths);
    var cell := SuiteOpen + suite + NameOpen + name + Br
      + FlagsOpen + (FlagBullet + "i") + Br + (FlagBullet + "am") + Br + PreClose;
    var symptoms := (SymptomOpen + DefaultBranchText + BoldClose) + (SymptomOpen + DiffOutcomesText + BoldClose);
    FirstCharDiffers("| ", cell + " | " + (PreOpen + x + PreClose) + " |",
      FlakeTitleOpen + KnownFlakeTitle + BoldClose + cell + " | " + (symptoms + (PreOpen + x + PreClose)) + " |");
  }

  /** Two texts after a common prefix differ when they start with different characters. */
  lemma FirstCharDiffers(p: string, s: string, t: string)
    requires |s| > 0 && |t| > 0 && s[0] != t[0]
    ensures p + s != p + t
  {
    assert (p + s)[|p|] == s[0];
    assert (p + t)[|p|] == t[0];
  }

  /** A failure without a message says so in the `<pre>` block, whatever paths the scan would find. */
  lemma InfoWithoutMessage(findPaths: string -> seq<string>)
    ensures GenerateFailureInfo(None, findPaths, None) == "<pre>" + "No failure message available" + "</pre>"
  {
    assert FlakeSection(None) == "";
  }

  /** The test's two failures carry no line feed in their name, suite or flags. */
  lemma TestFailuresSingleLine(f1: Failure, f2: Failure)
    requires f1.name == "world" && f1.testsuite == "hello" && f1.flags == Some(["i", "am"])
    requires f2.name == "world" && f2.testsuite == "bar" && f2.flags == Some(["i", "am"])
    ensures SingleLineTexts(f1) && SingleLineTexts(f2)
  {
  }

  /**
   The message built for the test's payload, read line by line: the header,
   the summary with a total of 6, the table head, then the flaky test's row
   and the plain test's row.
   */
  lemma MessageOfTestPayload(p: MessagePayload, findPaths: string -> seq<string>)
    requires p.failed == 1 && p.passed == 2 && p.skipped == 3 && |p.failures| == 2
    requires p.failures[0] == Failure("world", "hello", Some("hello world"), Some(["i", "am"]), Some(KnownFlake))
    requires p.failures[1] == Failure("world", "bar", Some("foo"), Some(["i", "am"]), None)
    requires findPaths("hello world") == [] && findPaths("foo") == []
    ensures var lines := Split(BuildMessage(p, findPaths), '\n');
      |lines| == 8 && lines[0] == Header && lines[2..6] == DetailsBeginning
      && lines[1] == CompletedOpen + "6" + TestsWith + "1" + FailedClose + "2" + PassedAnd + "3" + SkippedClose
      && lines[6] ==
        "| " + (FlakeTitleOpen + KnownFlakeTitle + BoldClose
                + (SuiteOpen + "hello" + NameOpen + "world" + Br
                   + FlagsOpen + (FlagBullet + "i") + Br + (FlagBullet + "am") + Br + PreClose))
        + " | " + ((SymptomOpen + DefaultBranchText + BoldClose) + (SymptomOpen + DiffOutcomesText + BoldClose)
                   + (PreOpen + "hello world" + PreClose)) + " |"
      && lines[7] ==
        "| " + (SuiteOpen + "bar" + NameOpen + "world" + Br
                + FlagsOpen + (FlagBullet + "i") + Br + (FlagBullet + "am") + Br + PreClose)
        + " | " + (PreOpen + "foo" + PreClose) + " |"
  {
    TestFailuresSingleLine(p.failures[0], p.failures[1]);
    MessageSplitsIntoLines(p, findPaths);
    SummaryOfPayload();
    RowOfFlakyTest("hello", "world", ["i", "am"], "hello world", findPaths);
    RowOfPlainTest("bar", "world", ["i", "am"], "foo", findPaths);
  }
}
