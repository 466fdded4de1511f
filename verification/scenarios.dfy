/** Concrete sessions through the reception flow. */
module Scenarios {

  import opened Wrappers
  import opened Session
  import opened View

  const Answered: State := State(3, map[1 := "Tool / Utility", 2 := "Perform a task", 3 := "Text"], false, [])

  /** Answering "Tool / Utility", "Perform a task" and "Text" leads to the
      summary view with those three answers recorded. */
  lemma AnsweringScenario()
    ensures Run(Initial(), [Pick("Tool / Utility"), Pick("Perform a task"), Pick("Text")]) == Some(Answered)
    ensures PhaseOf(Answered) == Reviewing
  {
    var s1 := HandleAnswer(Initial(), 1, "Tool / Utility");
    var s2 := HandleAnswer(s1, 2, "Perform a task");
    assert Dispatch(Initial(), Pick("Tool / Utility")) == Some(s1);
    assert Dispatch(s1, Pick("Perform a task")) == Some(s2);
    assert Dispatch(s2, Pick("Text")) == Some(Answered);
  }

  /** The summary then holds exactly three lines, in question order. */
  lemma SummaryScenario()
    ensures Summary(Answered.answers) == ["Q1: Tool / Utility", "Q2: Perform a task", "Q3: Text"]
  {
    var answers := Answered.answers;
    assert AnsweredIds(answers, 2) == [3];
    assert AnsweredIds(answers, 1) == [2, 3];
    assert AnsweredIds(answers, 0) == [1, 2, 3];
    AnsweredLines();
  }

  /** The lines for the three recorded answers, spelled out. */
  lemma AnsweredLines()
    ensures SummaryLine(1, "Tool / Utility") == "Q1: Tool / Utility"
    ensures SummaryLine(2, "Perform a task") == "Q2: Perform a task"
    ensures SummaryLine(3, "Text") == "Q3: Text"
  {
  }

  /** An option that belongs to another question is not on offer. */
  lemma ForeignOptionRefused()
    ensures Dispatch(Initial(), Pick("Text")) == None
    ensures Dispatch(Initial(), Confirm) == None
    ensures Dispatch(Initial(), Complete(0)) == None
  {
  }

  /** After confirming, marking cards 2, 0, 1 reveals the epilogue with every
      cell green; card 0 can then no longer be clicked, and its handler would
      change nothing. */
  lemma CompletionScenario()
    ensures Run(Answered, [Confirm, Complete(2), Complete(0), Complete(1)])
         == Some(Answered.(agreed := true, completedSteps := [2, 0, 1]))
    ensures EpilogueVisible(Answered.(agreed := true, completedSteps := [2, 0, 1]))
    ensures StatusBar(Answered.(agreed := true, completedSteps := [2, 0, 1])) == [Completed, Completed, Completed]
    ensures Dispatch(Answered.(agreed := true, completedSteps := [2, 0, 1]), Complete(0)) == None
    ensures CompletePrompt(Answered.(agreed := true, completedSteps := [2, 0, 1]), 0)
         == Answered.(agreed := true, completedSteps := [2, 0, 1])
  {
    var agreed := Answered.(agreed := true);
    var c1 := agreed.(completedSteps := [2]);
    var c2 := agreed.(completedSteps := [2, 0]);
    var done := agreed.(completedSteps := [2, 0, 1]);
    assert Dispatch(Answered, Confirm) == Some(agreed);
    assert agreed.completedSteps + [2] == [2];
    assert [2] + [0] == [2, 0];
    assert [2, 0] + [1] == [2, 0, 1];
    assert Dispatch(agreed, Complete(2)) == Some(c1);
    assert Dispatch(c1, Complete(0)) == Some(c2);
    assert Dispatch(c2, Complete(1)) == Some(done);
    assert StatusBar(done)[0] == Completed && StatusBar(done)[1] == Completed && StatusBar(done)[2] == Completed;
  }
}
