/**
 The fixed markdown and HTML texts of the notification, with the fact that
 none of them holds a line feed.
 */
module Markup {

  /*
   The fixed texts of the cells and of the message. A long text is written as
   a concatenation of short pieces; the value is the same.
   */
  const PreOpen := "<pre>"
  const PreClose := "</pre>"
  const Br := "<br>"
  const SuiteOpen := "<pre>Testsuite:<br>"
  const NameOpen := "<br><br>" + "Test name:<br>"
  const FlagsOpen := "**Flags**:<br>"
  const FlagBullet := "- "
  const FlakeTitleOpen := ":snowflake:" + ":card_index_dividers: **"
  const BoldClose := "**<br>"
  const NewFlakeTitle := "Newly Detected Flake"
  const KnownFlakeTitle := "Known Flaky Test"
  const SymptomOpen := ":snowflake: " + ":card_index_dividers: **"
  const DiffOutcomesText := "Differing outcomes " + "on the same commit"
  const DefaultBranchText := "Failure on " + "default branch"
  const UnrelatedBranchesText := "Matching failures " + "on unrelated branches"
  const NoFailureMessage := "No failure " + "message available"

  // ----- No fixed text holds a line feed ----------------------------------
  //
  // One lemma per section of the message, each built from the per-text
  // lemmas below it.

  /** No fixed text of the description cell holds a line feed. */
  lemma DescriptionTextsSingleLine()
    ensures '\n' !in PreClose && '\n' !in Br && '\n' !in SuiteOpen && '\n' !in NameOpen
    ensures '\n' !in FlagsOpen && '\n' !in FlagBullet && '\n' !in BoldClose
  {
    PreCloseSingleLine();
    BrSingleLine();
    SuiteOpenSingleLine();
    NameOpenSingleLine();
    FlagsOpenSingleLine();
    FlagBulletSingleLine();
    BoldCloseSingleLine();
  }

  lemma FlakeTextsSingleLine()
    ensures '\n' !in FlakeTitleOpen && '\n' !in NewFlakeTitle && '\n' !in KnownFlakeTitle
  {
    FlakeTitleOpenSingleLine();
    NewFlakeTitleSingleLine();
    KnownFlakeTitleSingleLine();
  }

  /** No fixed text of the information cell holds a line feed. */
  lemma SymptomTextsSingleLine()
    ensures '\n' !in SymptomOpen && '\n' !in DiffOutcomesText && '\n' !in DefaultBranchText
    ensures '\n' !in UnrelatedBranchesText && '\n' !in BoldClose
  {
    SymptomOpenSingleLine();
    DiffOutcomesTextSingleLine();
    DefaultBranchTextSingleLine();
    UnrelatedBranchesTextSingleLine();
    BoldCloseSingleLine();
  }

  lemma InfoTextsSingleLine()
    ensures '\n' !in PreOpen && '\n' !in PreClose && '\n' !in NoFailureMessage
  {
    PreOpenSingleLine();
    PreCloseSingleLine();
    NoFailureMessageSingleLine();
  }

  const Header := "### :x: " + "Failed Test Results: "
  const DetailsOpen := "<details><summary>" + "View the full list " + "of failed tests" + "</summary>"
  const TableHead := "| **Test Description** " + "| **Failure message** |"
  const TableRule := "| :-- | :-- |"
  const DetailsBeginning: seq<string> := [DetailsOpen, "", TableHead, TableRule]

  const CompletedOpen := "Completed "
  const TestsWith := " tests with **`"
  const FailedClose := " failed`**, "
  const PassedAnd := " passed and "
  const SkippedClose := " skipped."

  lemma MessageTextsSingleLine()
    ensures '\n' !in Header && '\n' !in DetailsOpen && '\n' !in TableHead && '\n' !in TableRule
  {
    HeaderSingleLine();
    DetailsOpenSingleLine();
    TableHeadSingleLine();
    TableRuleSingleLine();
  }

  lemma SummaryTextsSingleLine()
    ensures '\n' !in CompletedOpen && '\n' !in TestsWith && '\n' !in FailedClose
    ensures '\n' !in PassedAnd && '\n' !in SkippedClose
  {
    CompletedOpenSingleLine();
    TestsWithSingleLine();
    FailedCloseSingleLine();
    PassedAndSingleLine();
    SkippedCloseSingleLine();
  }

  // ----- One lemma per text, so that each proof stays small ----------------

  lemma PreOpenSingleLine()
    ensures '\n' !in PreOpen
  {
  }

  lemma PreCloseSingleLine()
    ensures '\n' !in PreClose
  {
  }

  lemma BrSingleLine()
    ensures '\n' !in Br
  {
  }

  lemma SuiteOpenSingleLine()
    ensures '\n' !in SuiteOpen
  {
  }

  lemma NameOpenSingleLine()
    ensures '\n' !in NameOpen
  {
  }

  lemma FlagsOpenSingleLine()
    ensures '\n' !in FlagsOpen
  {
  }

  lemma FlagBulletSingleLine()
    ensures '\n' !in FlagBullet
  {
  }

  lemma FlakeTitleOpenSingleLine()
    ensures '\n' !in FlakeTitleOpen
  {
  }

  lemma BoldCloseSingleLine()
    ensures '\n' !in BoldClose
  {
  }

  lemma NewFlakeTitleSingleLine()
    ensures '\n' !in NewFlakeTitle
  {
  }

  lemma KnownFlakeTitleSingleLine()
    ensures '\n' !in KnownFlakeTitle
  {
  }

  lemma SymptomOpenSingleLine()
    ensures '\n' !in SymptomOpen
  {
  }

  lemma DiffOutcomesTextSingleLine()
    ensures '\n' !in DiffOutcomesText
  {
  }

  lemma DefaultBranchTextSingleLine()
    ensures '\n' !in DefaultBranchText
  {
  }

  lemma UnrelatedBranchesTextSingleLine()
    ensures '\n' !in UnrelatedBranchesText
  {
  }

  lemma NoFailureMessageSingleLine()
    ensures '\n' !in NoFailureMessage
  {
  }

  lemma HeaderSingleLine()
    ensures '\n' !in Header
  {
  }

  lemma DetailsOpenSingleLine()
    ensures '\n' !in DetailsOpen
  {
  }

  lemma TableHeadSingleLine()
    ensures '\n' !in TableHead
  {
  }

  lemma TableRuleSingleLine()
    ensures '\n' !in TableRule
  {
  }

  lemma CompletedOpenSingleLine()
    ensures '\n' !in CompletedOpen
  {
  }

  lemma TestsWithSingleLine()
    ensures '\n' !in TestsWith
  {
  }

  lemma FailedCloseSingleLine()
    ensures '\n' !in FailedClose
  {
  }

  lemma PassedAndSingleLine()
    ensures '\n' !in PassedAnd
  {
  }

  lemma SkippedCloseSingleLine()
    ensures '\n' !in SkippedClose
  {
  }
}
