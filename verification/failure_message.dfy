/**
 `build_message`: the markdown message listing every failed test of a run, a
 header, a summary of the counts and one table row per failure.
 */
module FailureMessage {
  import opened Wrappers
  import opened Text
  import opened Markup
  import opened Cells

  /** The 32-bit signed integers of the payload's counts. */
  newtype i32 = x: int | -0x8000_0000 <= x < 0x8000_0000

  datatype Failure = Failure(
    name: string,
    testsuite: string,
    failureMessage: Option<string>,
    flags: Option<seq<string>>,
    flake: Option<Flake>)

  datatype MessagePayload = MessagePayload(passed: i32, failed: i32, skipped: i32, failures: seq<Failure>)

  /**
   The number of completed tests, `failed + passed + skipped` in 32-bit signed
   arithmetic: it wraps around modulo 2^32 and is the true sum whenever that
   fits.
   */
  function Completed(failed: i32, passed: i32, skipped: i32): (c: i32)
    ensures (c as int - (failed as int + passed as int + skipped as int)) % 0x1_0000_0000 == 0
    ensures -0x8000_0000 <= failed as int + passed as int + skipped as int < 0x8000_0000 ==>
      c as int == failed as int + passed as int + skipped as int
  {
    ((failed as int + passed as int + skipped as int + 0x8000_0000) % 0x1_0000_0000 - 0x8000_0000) as i32
  }


  function SummaryLine(failed: i32, passed: i32, skipped: i32): string
  {
    CompletedOpen + IntToDecimal(Completed(failed, passed, skipped) as int) + TestsWith + IntToDecimal(failed as int)
      + FailedClose + IntToDecimal(passed as int) + PassedAnd + IntToDecimal(skipped as int) + SkippedClose
  }

  /**
   For counts of any sign whose sum fits in 32 bits, the summary shows the
   true total and the three counts; when none is negative, all four are
   plain numerals without a sign.
   */
  lemma SummaryShowsCounts(failed: i32, passed: i32, skipped: i32)
    requires -0x8000_0000 <= failed as int + passed as int + skipped as int < 0x8000_0000
    ensures SummaryLine(failed, passed, skipped) ==
      CompletedOpen + IntToDecimal(failed as int + passed as int + skipped as int) + TestsWith + IntToDecimal(failed as int)
        + FailedClose + IntToDecimal(passed as int) + PassedAnd + IntToDecimal(skipped as int) + SkippedClose
    ensures 0 <= failed && 0 <= passed && 0 <= skipped ==>
      SummaryLine(failed, passed, skipped) ==
      CompletedOpen + NatToDecimal(failed as int + passed as int + skipped as int) + TestsWith + NatToDecimal(failed as int)
        + FailedClose + NatToDecimal(passed as int) + PassedAnd + NatToDecimal(skipped as int) + SkippedClose
  {
  }

  function Row(fail: Failure, findPaths: string -> seq<string>): string
  {
    "| " + GenerateTestDescription(fail.testsuite, fail.name, fail.flags, fail.flake)
      + " | " + GenerateFailureInfo(fail.failureMessage, findPaths, fail.flake) + " |"
  }

  /** One row per failure, in the payload's order. */
  function Rows(failures: seq<Failure>, findPaths: string -> seq<string>): seq<string>
  {
    seq(|failures|, i requires 0 <= i < |failures| => Row(failures[i], findPaths))
  }

  /** The lines of the message: header, summary, the table head, then the rows. */
  function MessageLines(payload: MessagePayload, findPaths: string -> seq<string>): (lines: seq<string>)
    ensures |lines| == 6 + |payload.failures|
    ensures lines[0] == Header && lines[1] == SummaryLine(payload.failed, payload.passed, payload.skipped)
    ensures lines[2..6] == DetailsBeginning
    ensures forall i :: 0 <= i < |payload.failures| ==> lines[6 + i] == Row(payload.failures[i], findPaths)
  {
    [Header, SummaryLine(payload.failed, payload.passed, payload.skipped)] + DetailsBeginning + Rows(payload.failures, findPaths)
  }

  function BuildMessage(payload: MessagePayload, findPaths: string -> seq<string>): string
  {
    Join(MessageLines(payload, findPaths), "\n")
  }

  /** The test's own texts hold no line feed. */
  predicate SingleLineTexts(fail: Failure)
  {
    '\n' !in fail.name && '\n' !in fail.testsuite &&
    (fail.flags.Some? ==> forall i :: 0 <= i < |fail.flags.value| ==> '\n' !in fail.flags.value[i])
  }

  lemma DecimalSingleLine(n: int)
    ensures '\n' !in IntToDecimal(n)
  {
    var r := IntToDecimal(n);
    if n < 0 {
      assert forall i :: 1 <= i < |r| ==> r[i] == NatToDecimal(-n)[i - 1];
    }
  }

  lemma SummarySingleLine(failed: i32, passed: i32, skipped: i32)
    ensures '\n' !in SummaryLine(failed, passed, skipped)
  {
    SummaryTextsSingleLine();
    DecimalSingleLine(Completed(failed, passed, skipped) as int);
    DecimalSingleLine(failed as int);
    DecimalSingleLine(passed as int);
    DecimalSingleLine(skipped as int);
  }

  lemma RowSingleLine(fail: Failure, findPaths: string -> seq<string>)
    requires SingleLineTexts(fail)
    ensures '\n' !in Row(fail, findPaths)
  {
    DescriptionSingleLine(fail.testsuite, fail.name, fail.flags, fail.flake);
    FailureInfoSingleLine(fail.failureMessage, findPaths, fail.flake);
  }

  /**
   When no test name, suite or flag holds a line feed, the message splits at
   its line feeds into exactly its lines: the header, the summary, the four
   lines of the table head and one row per failure.
   */
  lemma MessageSplitsIntoLines(payload: MessagePayload, findPaths: string -> seq<string>)
    requires forall i :: 0 <= i < |payload.failures| ==> SingleLineTexts(payload.failures[i])
    ensures Split(BuildMessage(payload, findPaths), '\n') == MessageLines(payload, findPaths)
  {
    var lines := MessageLines(payload, findPaths);
    MessageTextsSingleLine();
    SummarySingleLine(payload.failed, payload.passed, payload.skipped);
    forall i | 0 <= i < |lines| ensures '\n' !in lines[i] {
      if i >= 6 {
        RowSingleLine(payload.failures[i - 6], findPaths);
      } else if i >= 2 {
        assert lines[i] == DetailsBeginning[i - 2];
      }
    }
    SplitJoin(lines, '\n');
  }
}
