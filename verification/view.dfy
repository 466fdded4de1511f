/** The pure view rules of the reception component: the status-bar colours,
    the prompt cards, the epilogue test and the summary lines. Markup and
    styling are not modelled; colours are an enumeration. */
module View {

  import opened Wrappers
  import opened Intake
  import opened Session
  import Decimal

  /** Status-bar cell colours: green, yellow and grey in the rendered bar. */
  datatype Colour = Completed | Active | Pending

  /** The colour of status-bar cell `i`, by strict precedence: a completed
      position is green whatever else holds; otherwise the cell under the
      cursor is yellow once agreed; everything else is grey. */
  function CellColour(s: State, i: int): (c: Colour)
    ensures c == Completed <==> i in s.completedSteps
    ensures c == Active <==> i !in s.completedSteps && i == s.step && s.agreed
    ensures c == Pending <==> i !in s.completedSteps && (i != s.step || !s.agreed)
  {
    if i in s.completedSteps then Completed
    else if i == s.step && s.agreed then Active
    else Pending
  }

  /** One cell per question, left to right: a cell is green exactly when its
      position is marked, and yellow exactly when it is unmarked, under the
      cursor and the summary is agreed; so before agreement, or with the
      cursor past the last cell, no cell is yellow. */
  function StatusBar(s: State): (bar: seq<Colour>)
    ensures |bar| == QuestionCount
    ensures forall i :: 0 <= i < |bar| ==> (bar[i] == Completed <==> i in s.completedSteps)
    ensures forall i :: 0 <= i < |bar| ==>
      (bar[i] == Active <==> i !in s.completedSteps && i == s.step && s.agreed)
    ensures !s.agreed || s.step >= QuestionCount ==> Active !in bar
  {
    seq(QuestionCount, i => CellColour(s, i))
  }

  /** A prompt card: its 1-based number, the answer it echoes (absent when the
      question was never answered) and whether its button is disabled. */
  datatype Card = Card(number: nat, answer: Option<string>, disabled: bool)

  /** The "Mark Complete" button of card `i` is disabled once `i` was marked. */
  predicate MarkDisabled(s: State, i: int)
  {
    i in s.completedSteps
  }

  /** The card for the question at position `i`: numbered from 1, echoing the
      answer recorded under that question's identifier, disabled once marked. */
  function PromptCard(s: State, i: nat): (card: Card)
    requires i < QuestionCount
    ensures card.number == i + 1
    ensures card.answer.Some? <==> i + 1 in s.answers
    ensures card.answer.Some? ==> card.answer.value == s.answers[i + 1]
    ensures card.disabled <==> i in s.completedSteps
  {
    var id := IdAt(i);
    Card(i + 1, if id in s.answers then Some(s.answers[id]) else None, MarkDisabled(s, i))
  }

  /** The prompt cards, one per question in table order, numbered 1..3; card
      `i` echoes the answer to question `i + 1` and is disabled exactly when
      position `i` is marked. */
  function PromptCards(s: State): (cards: seq<Card>)
    ensures |cards| == QuestionCount
    ensures forall i :: 0 <= i < |cards| ==> cards[i].number == i + 1
    ensures forall i :: 0 <= i < |cards| ==> (cards[i].disabled <==> i in s.completedSteps)
    ensures forall i :: 0 <= i < |cards| ==>
      cards[i].answer == (if i + 1 in s.answers then Some(s.answers[i + 1]) else None)
  {
    seq(QuestionCount, i requires 0 <= i < QuestionCount => PromptCard(s, i))
  }

  /** The closing questions and the export button: part of the agreed view
      only, shown once as many cards are marked as there are questions. */
  predicate EpilogueVisible(s: State): (b: bool)
    ensures b ==> PhaseOf(s) == Tracking
    ensures b ==> |s.completedSteps| == QuestionCount
    ensures !s.agreed ==> !b
  {
    s.agreed && |s.completedSteps| == QuestionCount
  }

  /** A summary line: "Q", the question identifier in decimal, ": ", the
      answer. `SummaryLineRoundTrip` shows the format is unambiguous. */
  function SummaryLine(id: nat, answer: string): (line: string)
    ensures |line| == 3 + |Decimal.FromNat(id)| + |answer|
    ensures line[0] == 'Q'
  {
    "Q" + Decimal.FromNat(id) + ": " + answer
  }

  /** The index of the first non-digit of `line` at or after `i`. */
  function DigitRunEnd(line: string, i: nat): (j: nat)
    requires i <= |line|
    ensures i <= j <= |line|
    ensures Decimal.AllDigits(line[i..j])
    ensures j == |line| || !Decimal.IsDigit(line[j])
    decreases |line| - i
  {
    if i == |line| || !Decimal.IsDigit(line[i]) then i
    else
      var j := DigitRunEnd(line, i + 1);
      assert line[i..j] == [line[i]] + line[i + 1..j];
      j
  }

  /** Reads a summary line back into the identifier and the answer it shows;
      `None` when the text does not have the summary-line shape. */
  function ParseSummaryLine(line: string): Option<(nat, string)>
  {
    if |line| == 0 || line[0] != 'Q' then None
    else
      var j := DigitRunEnd(line, 1);
      if j == 1 || j + 2 > |line| || line[j..j + 2] != ": " then None
      else Some((Decimal.ToNat(line[1..j]), line[j + 2..]))
  }

  /** A summary line reads back as the identifier and answer it was made
      from, whatever the answer text contains. */
  lemma SummaryLineRoundTrip(id: nat, answer: string)
    ensures ParseSummaryLine(SummaryLine(id, answer)) == Some((id, answer))
  {
    var digits := Decimal.FromNat(id);
    var line := SummaryLine(id, answer);
    var k := 1 + |digits|;
    assert line[1..k] == digits;
    assert line[k] == ':';
    var j := DigitRunEnd(line, 1);
    assert j == k;
    assert line[k..k + 2] == ": ";
    assert line[k + 2..] == answer;
    Decimal.ToNatFromNat(id);
  }

  /** Every line made from an identifier and its recorded answer reads back
      as that pair. */
  lemma LinesRoundTrip(answers: map<nat, string>, ids: seq<nat>, lines: seq<string>)
    requires |lines| == |ids|
    requires forall j :: 0 <= j < |ids| ==> ids[j] in answers
    requires forall j :: 0 <= j < |ids| ==> lines[j] == SummaryLine(ids[j], answers[ids[j]])
    ensures forall j :: 0 <= j < |lines| ==> ParseSummaryLine(lines[j]) == Some((ids[j], answers[ids[j]]))
  {
    forall j | 0 <= j < |lines|
      ensures ParseSummaryLine(lines[j]) == Some((ids[j], answers[ids[j]]))
    {
      SummaryLineRoundTrip(ids[j], answers[ids[j]]);
    }
  }

  /** The identifiers of the questions at positions `k` and later that have a
      recorded answer, in table order: strictly ascending, within the table,
      and none missing. */
  function AnsweredIds(answers: map<nat, string>, k: nat): (ids: seq<nat>)
    requires k <= QuestionCount
    ensures forall j :: 0 <= j < |ids| ==> ids[j] in answers && k < ids[j] <= QuestionCount
    ensures forall i, j :: 0 <= i < j < |ids| ==> ids[i] < ids[j]
    ensures forall m :: k <= m < QuestionCount && IdAt(m) in answers ==> IdAt(m) in ids
    decreases QuestionCount - k
  {
    if k == QuestionCount then []
    else (if IdAt(k) in answers then [IdAt(k)] else []) + AnsweredIds(answers, k + 1)
  }

  /** The summary: one line per question of the table that has a recorded
      answer, in table order. An answer recorded under an identifier outside
      the table is not listed. */
  function Summary(answers: map<nat, string>): (lines: seq<string>)
    ensures |lines| == |AnsweredIds(answers, 0)| <= QuestionCount
  {
    var ids := AnsweredIds(answers, 0);
    seq(|ids|, j requires 0 <= j < |ids| => SummaryLine(ids[j], answers[ids[j]]))
  }

  /** The summary lists the answered questions of the table in ascending
      identifier order with none missing, and each line reads back as its
      identifier and the answer recorded under it. */
  lemma SummaryReadsBack(answers: map<nat, string>)
    ensures forall i, j :: 0 <= i < j < |Summary(answers)| ==> AnsweredIds(answers, 0)[i] < AnsweredIds(answers, 0)[j]
    ensures forall m :: 0 <= m < QuestionCount && IdAt(m) in answers ==> IdAt(m) in AnsweredIds(answers, 0)
    ensures forall j :: 0 <= j < |Summary(answers)| ==>
      ParseSummaryLine(Summary(answers)[j]) == Some((AnsweredIds(answers, 0)[j], answers[AnsweredIds(answers, 0)[j]]))
  {
    LinesRoundTrip(answers, AnsweredIds(answers, 0), Summary(answers));
  }
}
