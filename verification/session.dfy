/** The session state of the reception component (src/ReceptionApp.jsx) and
    the three click handlers that change it. Each handler is an atomic
    function from the current state to the next one; which handler a click can
    reach is decided by the rendering guards, collected in `Offered`. */
module Session {

  import opened Wrappers
  import opened Intake

  /** The four pieces of component state: the question cursor, the recorded
      answers by question identifier, the agreement flag and the positions of
      the prompt cards marked complete, in the order they were marked. */
  datatype State = State(
    step: nat,
    answers: map<nat, string>,
    agreed: bool,
    completedSteps: seq<int>)

  /** The state at mount: cursor 0, no answers, not agreed, nothing
      completed. The first question is on screen, and its option buttons are
      the only clicks on offer. */
  function Initial(): (s: State)
    ensures PhaseOf(s) == Questioning
    ensures forall a :: Offered(s, a) <==> a.Pick? && a.option in Questions[0].options
  {
    State(0, map[], false, [])
  }

  /** Records `answer` for `questionId` and moves the cursor one question on. */
  function HandleAnswer(s: State, questionId: nat, answer: string): (t: State)
    ensures t.step == s.step + 1
    ensures t.answers.Keys == s.answers.Keys + {questionId}
    ensures t.answers[questionId] == answer
    ensures forall id :: id in s.answers && id != questionId ==> t.answers[id] == s.answers[id]
    ensures t.agreed == s.agreed && t.completedSteps == s.completedSteps
  {
    s.(step := s.step + 1, answers := s.answers[questionId := answer])
  }

  /** Accepts the summary; the flag is never cleared again. */
  function ConfirmAgreement(s: State): (t: State)
    ensures t.agreed
    ensures t.step == s.step && t.answers == s.answers && t.completedSteps == s.completedSteps
  {
    s.(agreed := true)
  }

  /** Marks prompt card `index` complete; a card already marked is left alone,
      so the list never holds a position twice. */
  function CompletePrompt(s: State, index: int): (t: State)
    ensures index in t.completedSteps
    ensures s.completedSteps <= t.completedSteps
    ensures |t.completedSteps| <= |s.completedSteps| + 1
    ensures forall x :: x in t.completedSteps <==> x in s.completedSteps || x == index
    ensures index in s.completedSteps ==> t == s
    ensures t.step == s.step && t.answers == s.answers && t.agreed == s.agreed
  {
    if index in s.completedSteps then s
    else s.(completedSteps := s.completedSteps + [index])
  }

  /** Which view the component renders. */
  datatype Phase =
    | Questioning  // one question card with its option buttons
    | Reviewing    // the summary with the confirmation button
    | Tracking     // the status bar and the prompt cards

  /** The phase decides which buttons exist: the current question's options
      while questioning, the confirmation button while reviewing, and the
      card buttons only while tracking, which is exactly the agreed state. */
  function PhaseOf(s: State): (p: Phase)
    ensures p == Questioning ==> s.step < QuestionCount && Offered(s, Pick(FirstOption(s.step)))
    ensures p == Reviewing <==> Offered(s, Confirm)
    ensures p == Tracking <==> s.agreed
    ensures p != Tracking ==> forall i :: !Offered(s, Complete(i))
    ensures p == Tracking ==> forall option :: !Offered(s, Pick(option))
  {
    if !s.agreed then (if s.step < QuestionCount then Questioning else Reviewing)
    else Tracking
  }

  /** Position of a phase along the one-way flow. */
  function PhaseRank(p: Phase): nat
  {
    match p
    case Questioning => 0
    case Reviewing => 1
    case Tracking => 2
  }

  /** A click the user can make: an option button, the confirmation button,
      or the "Mark Complete" button of a prompt card. */
  datatype Action = Pick(option: string) | Confirm | Complete(index: int)

  /** The rendering guards: an action is offered exactly when its button is
      rendered and enabled in the current state. */
  predicate Offered(s: State, a: Action): (b: bool)
    ensures b && a.Pick? ==> s.step < QuestionCount && ValidAnswer(IdAt(s.step), a.option)
    ensures b ==> (a.Complete? <==> s.agreed)
    ensures b && a.Complete? ==> 0 <= a.index < QuestionCount && a.index !in s.completedSteps
  {
    match a
    case Pick(option) =>
      !s.agreed && s.step < QuestionCount && option in Questions[s.step].options
    case Confirm =>
      !s.agreed && s.step >= QuestionCount
    case Complete(i) =>
      s.agreed && 0 <= i < QuestionCount && i !in s.completedSteps
  }

  /** The effect of a click: the handler its button calls, or `None` when the
      interface does not offer that click. An option button passes the
      identifier of the question under the cursor. */
  function Dispatch(s: State, a: Action): (r: Option<State>)
    ensures r.Some? <==> Offered(s, a)
    ensures r.Some? && a.Pick? ==> r.value == HandleAnswer(s, IdAt(s.step), a.option)
    ensures r.Some? && a.Confirm? ==> r.value == ConfirmAgreement(s)
    ensures r.Some? && a.Complete? ==> r.value == CompletePrompt(s, a.index)
    ensures r.Some? ==> PhaseRank(PhaseOf(s)) <= PhaseRank(PhaseOf(r.value))
    ensures r.Some? ==> s.completedSteps <= r.value.completedSteps
    ensures r.Some? ==> |r.value.completedSteps| <= |s.completedSteps| + 1
    ensures r.Some? && !s.agreed ==> r.value.completedSteps == s.completedSteps
    ensures r.Some? && s.agreed ==> r.value.agreed && r.value.step == s.step && r.value.answers == s.answers
  {
    if !Offered(s, a) then None
    else match a
      case Pick(option) => Some(HandleAnswer(s, IdAt(s.step), option))
      case Confirm => Some(ConfirmAgreement(s))
      case Complete(i) => Some(CompletePrompt(s, i))
  }

  /** Replays a sequence of clicks from `s`; `None` as soon as one of them is
      not offered. */
  function Run(s: State, trace: seq<Action>): Option<State>
    decreases |trace|
  {
    if trace == [] then Some(s)
    else match Dispatch(s, trace[0])
      case None => None
      case Some(t) => Run(t, trace[1..])
  }

  /** The states a session can be in: those some sequence of offered clicks
      leads to from the state at mount. */
  ghost predicate Reachable(s: State)
  {
    exists trace :: Run(Initial(), trace) == Some(s)
  }

  /** Replaying a trace followed by one more click. */
  lemma {:induction false} RunSnoc(s: State, trace: seq<Action>, a: Action)
    ensures Run(s, trace + [a]) == (if Run(s, trace).Some? then Dispatch(Run(s, trace).value, a) else None)
    decreases |trace|
  {
    if trace == [] {
      assert [a][1..] == [];
    } else {
      assert (trace + [a])[1..] == trace[1..] + [a];
      match Dispatch(s, trace[0])
      case None =>
      case Some(t) => RunSnoc(t, trace[1..], a);
    }
  }

  /** Every offered click leads from a reachable state to a reachable state. */
  lemma ReachableStep(s: State, a: Action)
    requires Reachable(s)
    requires Offered(s, a)
    ensures Reachable(Dispatch(s, a).value)
  {
    var trace :| Run(Initial(), trace) == Some(s);
    RunSnoc(Initial(), trace, a);
    assert Run(Initial(), trace + [a]) == Dispatch(s, a);
  }
}
