/**
 The two cells of a table row: `generate_test_description` (test suite, test
 name, flags and the flake title) and `generate_failure_info` (the symptoms of
 a flaky test and the shortened, escaped failure message).
 */
module Cells {
  import opened Wrappers
  import opened Text
  import opened Markup
  import opened Escape
  import opened Shorten

  datatype FlakeSymptomType = FailedInDefaultBranch | ConsecutiveDiffOutcomes | UnrelatedMatchingFailures

  datatype Flake = Flake(symptoms: seq<FlakeSymptomType>, isNewFlake: bool)

  /** One bullet per flag, in order. */
  function FlagItems(flags: seq<string>): (items: seq<string>)
    ensures |items| == |flags|
    ensures forall i :: 0 <= i < |flags| ==> items[i] == FlagBullet + flags[i]
  {
    if |flags| == 0 then [] else [FlagBullet + flags[0]] + FlagItems(flags[1..])
  }

  function FlagsSection(flags: Option<seq<string>>): string
  {
    match flags
    case None => ""
    case Some(fs) => FlagsOpen + Join(FlagItems(fs), Br) + Br
  }

  function DescriptionSection(testsuite: string, name: string, flags: Option<seq<string>>): string
  {
    SuiteOpen + testsuite + NameOpen + name + Br + FlagsSection(flags) + PreClose
  }

  /** The title of a flaky test names it new exactly when it was newly detected. */
  function FlakeTitle(isNewFlake: bool): (title: string)
    ensures title == NewFlakeTitle <==> isNewFlake
    ensures !isNewFlake ==> title == KnownFlakeTitle
  {
    if isNewFlake then NewFlakeTitle else KnownFlakeTitle
  }

  /** The left cell: the test suite, the test name, the flags and, for a flaky test, a title. */
  function GenerateTestDescription(testsuite: string, name: string, flags: Option<seq<string>>, flake: Option<Flake>): string
  {
    var section := DescriptionSection(testsuite, name, flags);
    match flake
    case Some(f) => FlakeTitleOpen + FlakeTitle(f.isNewFlake) + BoldClose + section
    case None => section
  }

  /** The text given for each symptom of a flaky test. */
  function SymptomText(symptom: FlakeSymptomType): string
  {
    match symptom
    case ConsecutiveDiffOutcomes => DiffOutcomesText
    case FailedInDefaultBranch => DefaultBranchText
    case UnrelatedMatchingFailures => UnrelatedBranchesText
  }

  /** The titled line of one symptom. */
  function SymptomLine(symptom: FlakeSymptomType): string
  {
    SymptomOpen + SymptomText(symptom) + BoldClose
  }

  /** One titled line per symptom, in order. */
  function SymptomLines(symptoms: seq<FlakeSymptomType>): (lines: seq<string>)
    ensures |lines| == |symptoms|
    ensures forall i :: 0 <= i < |symptoms| ==> lines[i] == SymptomLine(symptoms[i])
  {
    if |symptoms| == 0 then []
    else [SymptomLine(symptoms[0])] + SymptomLines(symptoms[1..])
  }

  function FlakeSection(flake: Option<Flake>): string
  {
    match flake
    case None => ""
    case Some(f) => Join(SymptomLines(f.symptoms), "")
  }

  /**
   The failure text of a row: the message with its long paths shortened and
   then escaped, or a fixed sentence when there is no message. `findPaths`
   stands for the path pattern: it gives the paths found in a message.
   */
  function FailureText(failureMessage: Option<string>, findPaths: string -> seq<string>): string
  {
    match failureMessage
    case None => NoFailureMessage
    case Some(x) => EscapeFailureMessage(ShortenFilePaths(x, findPaths(x)))
  }

  /** The right cell: the symptoms of a flaky test, then the failure text in a `<pre>` block. */
  function GenerateFailureInfo(failureMessage: Option<string>, findPaths: string -> seq<string>, flake: Option<Flake>): string
  {
    var block := PreOpen + FailureText(failureMessage, findPaths) + PreClose;
    FlakeSection(flake) + block
  }

  /**
   A flake only puts a title in front of the description; the rest of the
   cell is what the same test gives without a flake.
   */
  lemma FlakePrefixesDescription(testsuite: string, name: string, flags: Option<seq<string>>, f: Flake)
    ensures GenerateTestDescription(testsuite, name, flags, Some(f)) ==
      FlakeTitleOpen + FlakeTitle(f.isNewFlake) + BoldClose + GenerateTestDescription(testsuite, name, flags, None)
  {
    var section := DescriptionSection(testsuite, name, flags);
    assert GenerateTestDescription(testsuite, name, flags, None) == section;
  }

  /**
   A flake only puts its symptom lines in front of the failure information;
   the rest of the cell is what the same test gives without a flake.
   */
  lemma FlakePrefixesInfo(failureMessage: Option<string>, findPaths: string -> seq<string>, f: Flake)
    ensures GenerateFailureInfo(failureMessage, findPaths, Some(f)) ==
      Join(SymptomLines(f.symptoms), "") + GenerateFailureInfo(failureMessage, findPaths, None)
  {
    var block := PreOpen + FailureText(failureMessage, findPaths) + PreClose;
    assert [] + block == block;
  }

  lemma FlagsSectionSingleLine(flags: Option<seq<string>>)
    requires flags.Some? ==> forall i :: 0 <= i < |flags.value| ==> '\n' !in flags.value[i]
    ensures '\n' !in FlagsSection(flags)
  {
    if flags.Some? {
      DescriptionTextsSingleLine();
      var items := FlagItems(flags.value);
      forall i | 0 <= i < |items| ensures '\n' !in items[i] {
        assert items[i] == FlagBullet + flags.value[i];
      }
      JoinOmits(items, Br, '\n');
    }
  }

  /** No line feed of the description cell comes from anywhere but the test's own texts. */
  lemma DescriptionSingleLine(testsuite: string, name: string, flags: Option<seq<string>>, flake: Option<Flake>)
    requires '\n' !in testsuite && '\n' !in name
    requires flags.Some? ==> forall i :: 0 <= i < |flags.value| ==> '\n' !in flags.value[i]
    ensures '\n' !in GenerateTestDescription(testsuite, name, flags, flake)
  {
    DescriptionTextsSingleLine();
    FlakeTextsSingleLine();
    FlagsSectionSingleLine(flags);
  }

  lemma SymptomLinesSingleLine(symptoms: seq<FlakeSymptomType>)
    ensures '\n' !in Join(SymptomLines(symptoms), "")
  {
    SymptomTextsSingleLine();
    var lines := SymptomLines(symptoms);
    forall i | 0 <= i < |lines| ensures '\n' !in lines[i] {
      assert lines[i] == SymptomLine(symptoms[i]);
    }
    JoinOmits(lines, "", '\n');
  }

  /**
   The information cell never holds a line feed: the escaping removes those of
   the message, and no fixed text has one. A failure therefore always stays on
   one row of the table, whatever its message.
   */
  lemma FailureInfoSingleLine(failureMessage: Option<string>, findPaths: string -> seq<string>, flake: Option<Flake>)
    ensures '\n' !in GenerateFailureInfo(failureMessage, findPaths, flake)
  {
    InfoTextsSingleLine();
    if failureMessage.Some? {
      var x := failureMessage.value;
      EscapeShape(ShortenFilePaths(x, findPaths(x)));
    }
    if flake.Some? {
      SymptomLinesSingleLine(flake.value.symptoms);
    }
  }

  /**
   The failure text is the shortened message escaped character by character;
   a message with no long path and none of the escaped characters appears
   verbatim.
   */
  lemma FailureTextOfMessage(x: string, findPaths: string -> seq<string>)
    ensures FailureText(Some(x), findPaths) == EscapeEachChar(ShortenFilePaths(x, findPaths(x)))
    ensures (forall i :: 0 <= i < |findPaths(x)| ==> Count(findPaths(x)[i], '/') < 3) &&
            (forall i :: 0 <= i < |x| ==> !IsEscaped(x[i])) ==>
            FailureText(Some(x), findPaths) == x
  {
    EscapeReference(ShortenFilePaths(x, findPaths(x)));
    if (forall i :: 0 <= i < |findPaths(x)| ==> Count(findPaths(x)[i], '/') < 3) &&
       (forall i :: 0 <= i < |x| ==> !IsEscaped(x[i])) {
      ShortenFilePathsKeepsShort(x, findPaths(x));
      EscapeUntouched(x);
    }
  }
}
