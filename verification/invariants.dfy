/** The invariants every reachable session state satisfies, and how the
    state may evolve along any sequence of offered clicks. */
module Invariants {

  import opened Wrappers
  import opened Intake
  import opened Session
  import opened Lists

  /** The identifiers of the first `n` questions. */
  ghost function IdsUpTo(n: nat): (ids: set<nat>)
    ensures forall id :: id in ids <==> 1 <= id <= n
    ensures |ids| == n
  {
    if n == 0 then {} else IdsUpTo(n - 1) + {n}
  }

  /** The session invariant: the cursor stays within the table; exactly the
      questions before the cursor are answered, each with one of its own
      options; agreement happens only after the last question; and the
      completed list is empty before agreement and afterwards holds card
      positions, each once. */
  ghost predicate Inv(s: State)
  {
    && s.step <= QuestionCount
    && s.answers.Keys == IdsUpTo(s.step)
    && (forall id :: id in s.answers ==> ValidAnswer(id, s.answers[id]))
    && (s.agreed ==> s.step == QuestionCount)
    && (!s.agreed ==> s.completedSteps == [])
    && NoDuplicates(s.completedSteps)
    && (forall j :: 0 <= j < |s.completedSteps| ==> 0 <= s.completedSteps[j] < QuestionCount)
  }

  lemma InitialInv()
    ensures Inv(Initial())
  {
  }

  /** Every offered click preserves the invariant. */
  lemma DispatchInv(s: State, a: Action)
    requires Inv(s)
    requires Offered(s, a)
    ensures Inv(Dispatch(s, a).value)
  {
    match a
    case Pick(option) => PickInv(s, option);
    case Confirm =>
    case Complete(i) => CompleteInv(s, i);
  }

  lemma PickInv(s: State, option: string)
    requires Inv(s)
    requires Offered(s, Pick(option))
    ensures Inv(HandleAnswer(s, IdAt(s.step), option))
  {
  }

  lemma CompleteInv(s: State, i: int)
    requires Inv(s)
    requires Offered(s, Complete(i))
    ensures Inv(CompletePrompt(s, i))
  {
  }

  lemma {:induction false} RunInv(s: State, trace: seq<Action>)
    requires Inv(s)
    requires Run(s, trace).Some?
    ensures Inv(Run(s, trace).value)
    decreases |trace|
  {
    if trace != [] {
      DispatchInv(s, trace[0]);
      RunInv(Dispatch(s, trace[0]).value, trace[1..]);
    }
  }

  /** The invariant holds in every reachable state. */
  lemma ReachableInv(s: State)
    requires Reachable(s)
    ensures Inv(s)
  {
    var trace :| Run(Initial(), trace) == Some(s);
    InitialInv();
    RunInv(Initial(), trace);
  }

  /** In a reachable state the cursor counts the answers: the questions at
      positions below it, and only those, are answered, each with one of the
      options that question offers. */
  lemma ReachableAnswers(s: State)
    requires Reachable(s)
    ensures s.step <= QuestionCount
    ensures |s.answers| == s.step
    ensures forall k :: 0 <= k < s.step ==> IdAt(k) in s.answers && s.answers[IdAt(k)] in Questions[k].options
    ensures forall id :: id in s.answers ==> 1 <= id <= s.step
  {
    ReachableInv(s);
    InvAnswers(s);
  }

  lemma InvAnswers(s: State)
    requires Inv(s)
    ensures |s.answers| == s.step
    ensures forall k :: 0 <= k < s.step ==> IdAt(k) in s.answers && s.answers[IdAt(k)] in Questions[k].options
  {
  }

  /** Confirmation is offered in a reachable state only once every question
      is answered. */
  lemma ConfirmOnlyWhenAnswered(s: State)
    requires Reachable(s)
    requires Offered(s, Confirm)
    ensures s.step == QuestionCount
    ensures |s.answers| == QuestionCount
  {
    ReachableAnswers(s);
  }

  /** Clicks only ever append to the completed list. */
  lemma {:induction false} CompletedOnlyGrows(s: State, trace: seq<Action>)
    requires Run(s, trace).Some?
    ensures s.completedSteps <= Run(s, trace).value.completedSteps
    decreases |trace|
  {
    if trace != [] {
      var t := Dispatch(s, trace[0]).value;
      CompletedOnlyGrows(t, trace[1..]);
    }
  }

  /** Agreement is a one-way gate: after it no click changes the cursor or
      the answers, and the flag stays set. */
  lemma {:induction false} AgreedFrozen(s: State, trace: seq<Action>)
    requires s.agreed
    requires Run(s, trace).Some?
    ensures Run(s, trace).value.agreed
    ensures Run(s, trace).value.step == s.step
    ensures Run(s, trace).value.answers == s.answers
    decreases |trace|
  {
    if trace != [] {
      var t := Dispatch(s, trace[0]).value;
      AgreedFrozen(t, trace[1..]);
    }
  }

  /** Once agreed, no option or confirmation click is offered again. */
  lemma AgreedNoIntake(s: State, trace: seq<Action>, option: string)
    requires s.agreed
    requires Run(s, trace).Some?
    ensures !Offered(Run(s, trace).value, Pick(option))
    ensures !Offered(Run(s, trace).value, Confirm)
  {
    AgreedFrozen(s, trace);
  }

  /** The flow never goes back: the phase rank never decreases. */
  lemma {:induction false} PhaseNeverRegresses(s: State, trace: seq<Action>)
    requires Run(s, trace).Some?
    ensures PhaseRank(PhaseOf(s)) <= PhaseRank(PhaseOf(Run(s, trace).value))
    decreases |trace|
  {
    if trace != [] {
      var t := Dispatch(s, trace[0]).value;
      assert PhaseRank(PhaseOf(s)) <= PhaseRank(PhaseOf(t));
      PhaseNeverRegresses(t, trace[1..]);
    }
  }
}
