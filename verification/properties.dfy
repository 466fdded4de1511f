/** What the handlers and the view rules promise, stated on their own and on
    every reachable session state. */
module Properties {

  import opened Wrappers
  import opened Intake
  import opened Session
  import opened View
  import opened Lists
  import opened Invariants

  /** Marking a card twice has the effect of marking it once. */
  lemma CompletePromptIdempotent(s: State, i: int)
    ensures CompletePrompt(CompletePrompt(s, i), i) == CompletePrompt(s, i)
  {
  }

  /** A card's button is disabled exactly when clicking it would change nothing. */
  lemma DisabledIffNoEffect(s: State, i: int)
    ensures MarkDisabled(s, i) <==> CompletePrompt(s, i) == s
  {
    if !MarkDisabled(s, i) {
      assert |CompletePrompt(s, i).completedSteps| == |s.completedSteps| + 1;
    }
  }

  /** Marking keeps the completed list free of duplicates. */
  lemma CompletePromptKeepsDistinct(s: State, i: int)
    requires NoDuplicates(s.completedSteps)
    ensures NoDuplicates(CompletePrompt(s, i).completedSteps)
  {
  }

  /** The handler `CompletePrompt` applied to each position of `order` in turn,
      as a user clicking cards in that order would (a click on a card already
      marked has no effect). */
  function CompleteAll(s: State, order: seq<int>): State
    decreases |order|
  {
    if order == [] then s else CompleteAll(CompletePrompt(s, order[0]), order[1..])
  }

  /** Clicking cards in any order, with repeats, marks exactly the positions
      clicked in addition to those already marked, each once, and touches
      nothing else. */
  lemma {:induction false} CompleteAllMarks(s: State, order: seq<int>)
    requires NoDuplicates(s.completedSteps)
    ensures NoDuplicates(CompleteAll(s, order).completedSteps)
    ensures forall x :: x in CompleteAll(s, order).completedSteps <==> x in s.completedSteps || x in order
    ensures CompleteAll(s, order).step == s.step
    ensures CompleteAll(s, order).answers == s.answers
    ensures CompleteAll(s, order).agreed == s.agreed
    decreases |order|
  {
    if order != [] {
      CompletePromptKeepsDistinct(s, order[0]);
      CompleteAllMarks(CompletePrompt(s, order[0]), order[1..]);
      assert forall x :: x in order <==> x == order[0] || x in order[1..];
    }
  }

  /** After agreement, clicking card positions in any order from a reachable
      state stays within reachable states. */
  lemma {:induction false} CompleteAllReachable(s: State, order: seq<int>)
    requires Reachable(s)
    requires s.agreed
    requires forall j :: 0 <= j < |order| ==> 0 <= order[j] < QuestionCount
    ensures Reachable(CompleteAll(s, order))
    decreases |order|
  {
    if order != [] {
      var t := CompletePrompt(s, order[0]);
      if order[0] !in s.completedSteps {
        ReachableStep(s, Complete(order[0]));
      } else {
        assert t == s;
      }
      CompleteAllReachable(t, order[1..]);
    }
  }

  /** In a reachable state the completed list holds card positions, each at
      most once, and is empty before agreement. */
  lemma ReachableCompleted(s: State)
    requires Reachable(s)
    ensures NoDuplicates(s.completedSteps)
    ensures forall j :: 0 <= j < |s.completedSteps| ==> 0 <= s.completedSteps[j] < QuestionCount
    ensures !s.agreed ==> s.completedSteps == []
  {
    ReachableInv(s);
  }

  /** No status-bar cell is ever yellow: the cells are colour-checked against
      the cursor, which rests past the last cell once agreement is given. */
  lemma NoActiveCell(s: State)
    requires Reachable(s)
    ensures forall i :: 0 <= i < QuestionCount ==> CellColour(s, i) != Active
    ensures forall c :: c in StatusBar(s) ==> c != Active
  {
    ReachableInv(s);
  }

  /** A green cell stays green whatever is clicked afterwards. */
  lemma CompletedStaysGreen(s: State, trace: seq<Action>, i: int)
    requires CellColour(s, i) == Completed
    requires Run(s, trace).Some?
    ensures CellColour(Run(s, trace).value, i) == Completed
  {
    CompletedOnlyGrows(s, trace);
  }

  /** A duplicate-free list of card positions has one entry per card
      exactly when every card position is in it. The question table is a
      fixed literal of three entries, so the card positions are spelled out
      as 0, 1 and 2 here and in `Remaining`, `UnmarkedCardLeft` and
      `NextClick`; `QuestionCount` is 3 by the table's definition. */
  lemma FullIffAllPositions(xs: seq<int>)
    requires NoDuplicates(xs)
    requires forall j :: 0 <= j < |xs| ==> 0 <= xs[j] < QuestionCount
    ensures |xs| == QuestionCount <==> forall i :: 0 <= i < QuestionCount ==> i in xs
  {
    var marked := set x | x in xs;
    var positions: set<int> := {0, 1, 2};
    DistinctCardinality(xs);
    assert marked <= positions;
    if |xs| == QuestionCount {
      SubsetSameSize(marked, positions);
      assert 0 in marked && 1 in marked && 2 in marked;
    }
    if forall i :: 0 <= i < QuestionCount ==> i in xs {
      assert 0 in marked && 1 in marked && 2 in marked;
      assert marked == positions;
    }
  }

  /** In a reachable state the epilogue shows exactly when every card has
      been marked complete, in whatever order. */
  lemma EpilogueIffAllCompleted(s: State)
    requires Reachable(s)
    ensures EpilogueVisible(s) <==> s.agreed && forall i :: 0 <= i < QuestionCount ==> i in s.completedSteps
  {
    ReachableInv(s);
    FullIffAllPositions(s.completedSteps);
  }

  /** After agreement, clicking all three cards in any order, with repeats,
      reveals the epilogue. */
  lemma EpilogueAfterAllMarked(s: State, order: seq<int>)
    requires Reachable(s)
    requires s.agreed
    requires forall j :: 0 <= j < |order| ==> 0 <= order[j] < QuestionCount
    requires forall i :: 0 <= i < QuestionCount ==> i in order
    ensures Reachable(CompleteAll(s, order))
    ensures EpilogueVisible(CompleteAll(s, order))
  {
    ReachableInv(s);
    CompleteAllMarks(s, order);
    CompleteAllReachable(s, order);
    EpilogueIffAllCompleted(CompleteAll(s, order));
  }

  /** Once agreed, every prompt card of a reachable state echoes the answer
      given to its question, and its button is disabled exactly when the card
      was marked. */
  lemma CardsEchoAnswers(s: State)
    requires Reachable(s)
    requires s.agreed
    ensures forall i :: 0 <= i < QuestionCount ==> IdAt(i) in s.answers
    ensures forall i :: 0 <= i < QuestionCount ==>
      PromptCards(s)[i].answer == Some(s.answers[IdAt(i)]) && s.answers[IdAt(i)] in Questions[i].options
    ensures forall i :: 0 <= i < QuestionCount ==> (PromptCards(s)[i].disabled <==> i in s.completedSteps)
  {
    ReachableAnswers(s);
    ReachableInv(s);
    var cards := PromptCards(s);
    forall i | 0 <= i < QuestionCount
      ensures cards[i].answer == Some(s.answers[IdAt(i)])
    {
      assert cards[i] == PromptCard(s, i);
    }
  }

  /** When exactly the identifiers 1..n are answered, the answered
      identifiers from position `k` on are k+1..n. */
  lemma {:induction false} AnsweredIdsUpTo(answers: map<nat, string>, n: nat, k: nat)
    requires n <= QuestionCount
    requires forall id :: id in answers <==> 1 <= id <= n
    requires k <= QuestionCount
    ensures |AnsweredIds(answers, k)| == if k <= n then n - k else 0
    ensures forall j :: k <= j < n ==> AnsweredIds(answers, k)[j - k] == IdAt(j)
    decreases QuestionCount - k
  {
    if k < QuestionCount {
      AnsweredIdsUpTo(answers, n, k + 1);
      var rest := AnsweredIds(answers, k + 1);
      if k < n {
        assert AnsweredIds(answers, k) == [IdAt(k)] + rest;
      } else {
        assert AnsweredIds(answers, k) == rest;
      }
    }
  }

  /** In a reachable state the summary has one line per answer, in question
      order, and each line reads back as that question's identifier and the
      answer recorded for it. */
  lemma ReachableSummary(s: State)
    requires Reachable(s)
    ensures |Summary(s.answers)| == |s.answers| == s.step
    ensures forall j :: 0 <= j < s.step ==> IdAt(j) in s.answers
    ensures forall j :: 0 <= j < s.step ==>
      Summary(s.answers)[j] == SummaryLine(IdAt(j), s.answers[IdAt(j)])
    ensures forall j :: 0 <= j < s.step ==>
      ParseSummaryLine(Summary(s.answers)[j]) == Some((IdAt(j), s.answers[IdAt(j)]))
  {
    ReachableInv(s);
    InvSummary(s);
  }

  lemma InvSummary(s: State)
    requires Inv(s)
    ensures |Summary(s.answers)| == |s.answers| == s.step
    ensures forall j :: 0 <= j < s.step ==> IdAt(j) in s.answers
    ensures forall j :: 0 <= j < s.step ==>
      Summary(s.answers)[j] == SummaryLine(IdAt(j), s.answers[IdAt(j)])
    ensures forall j :: 0 <= j < s.step ==>
      ParseSummaryLine(Summary(s.answers)[j]) == Some((IdAt(j), s.answers[IdAt(j)]))
  {
    assert |s.answers| == |s.answers.Keys|;
    SummaryOfFirst(s.answers, s.step);
  }

  /** When exactly the identifiers 1..n are answered, the summary lists
      questions 1..n in order. */
  lemma SummaryOfFirst(answers: map<nat, string>, n: nat)
    requires n <= QuestionCount
    requires forall id :: id in answers <==> 1 <= id <= n
    ensures |Summary(answers)| == n
    ensures forall j :: 0 <= j < n ==> IdAt(j) in answers
    ensures forall j :: 0 <= j < n ==>
      Summary(answers)[j] == SummaryLine(IdAt(j), answers[IdAt(j)])
    ensures forall j :: 0 <= j < n ==>
      ParseSummaryLine(Summary(answers)[j]) == Some((IdAt(j), answers[IdAt(j)]))
  {
    AnsweredIdsUpTo(answers, n, 0);
    SummaryReadsBack(answers);
    var ids := AnsweredIds(answers, 0);
    var lines := Summary(answers);
    forall j | 0 <= j < n
      ensures lines[j] == SummaryLine(IdAt(j), answers[IdAt(j)])
      ensures ParseSummaryLine(lines[j]) == Some((IdAt(j), answers[IdAt(j)]))
    {
      assert ids[j] == IdAt(j);
    }
  }

  /** `trace` is a run of offered clicks from `s` that ends with the epilogue shown. */
  ghost predicate ReachesEpilogue(s: State, trace: seq<Action>)
  {
    Run(s, trace).Some? && EpilogueVisible(Run(s, trace).value)
  }

  /** A measure of how far a session is from the epilogue: questions left,
      the pending confirmation and the cards left unmarked. */
  function Remaining(s: State): nat
  {
    (if s.step <= QuestionCount then QuestionCount - s.step else 0)
    + (if s.agreed then 0 else 1)
    + (if 0 in s.completedSteps then 0 else 1)
    + (if 1 in s.completedSteps then 0 else 1)
    + (if 2 in s.completedSteps then 0 else 1)
  }

  /** Fewer distinct marked positions than cards leave a card unmarked. */
  lemma UnmarkedCardLeft(xs: seq<int>)
    requires NoDuplicates(xs)
    requires forall j :: 0 <= j < |xs| ==> 0 <= xs[j] < QuestionCount
    requires |xs| != QuestionCount
    ensures 0 !in xs || 1 !in xs || 2 !in xs
  {
    FullIffAllPositions(xs);
  }

  /** A click that moves a session without the epilogue towards it: the first
      option of the current question, the confirmation, or the first unmarked
      card. */
  function NextClick(s: State): (a: Action)
    requires Inv(s)
    requires !EpilogueVisible(s)
    ensures Offered(s, a)
    ensures Remaining(Dispatch(s, a).value) < Remaining(s)
  {
    if !s.agreed then
      if s.step < QuestionCount then Pick(FirstOption(s.step)) else Confirm
    else
      UnmarkedCardLeft(s.completedSteps);
      if 0 !in s.completedSteps then Complete(0)
      else if 1 !in s.completedSteps then Complete(1)
      else Complete(2)
  }

  /** The flow has no dead end: from any state satisfying the invariant some
      sequence of offered clicks reaches the epilogue. */
  lemma {:induction false} InvReachesEpilogue(s: State)
    requires Inv(s)
    ensures exists trace :: ReachesEpilogue(s, trace)
    decreases Remaining(s)
  {
    if EpilogueVisible(s) {
      assert ReachesEpilogue(s, []);
    } else {
      var a := NextClick(s);
      DispatchInv(s, a);
      var t := Dispatch(s, a).value;
      InvReachesEpilogue(t);
      var rest :| ReachesEpilogue(t, rest);
      ReachesEpilogueCons(s, a, rest);
    }
  }

  /** An offered click followed by a trace that reaches the epilogue is a
      trace that reaches it. */
  lemma ReachesEpilogueCons(s: State, a: Action, rest: seq<Action>)
    requires Dispatch(s, a).Some? && ReachesEpilogue(Dispatch(s, a).value, rest)
    ensures ReachesEpilogue(s, [a] + rest)
  {
  }

  /** From every reachable state the epilogue can still be reached. */
  lemma EpilogueAlwaysReachable(s: State)
    requires Reachable(s)
    ensures exists trace :: ReachesEpilogue(s, trace)
  {
    ReachableInv(s);
    InvReachesEpilogue(s);
  }
}
