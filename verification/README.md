# Reception intake session — a Dafny model

The reception app is a single React component, `ReceptionApp`, that walks a
user through three fixed intake questions, shows a summary of the answers,
asks for a confirmation, and then tracks three "prompt" cards (one per
question) that the user marks complete; when all three are marked, a short
epilogue with an inert "Export Blueprint" button appears.

This project models the component's session state machine:

- `Intake` — the fixed question table: identifiers 1..3 and each question's
  option labels, kept verbatim.
- `Session` — the four pieces of state (`step`, `answers`, `agreed`,
  `completedSteps`), the three click handlers (`HandleAnswer`,
  `ConfirmAgreement`, `CompletePrompt`) as total functions, exactly as the
  component defines them, and the rendering guards that decide which click is
  on offer (`Offered`, `Dispatch`). `Run` replays a sequence of clicks and
  `Reachable` is the set of states some such sequence reaches from the
  state at mount.
- `View` — the pure view rules: status-bar cell colour (an enumeration
  instead of CSS classes), prompt cards, the epilogue test, and the summary
  lines `Q<id>: <answer>` together with a reader for them.
- `Invariants` — the session invariant and its preservation by every offered
  click; the one-way agreement gate; the phase order.
- `Properties` — idempotence of marking, the status-bar and epilogue rules on
  reachable states, the summary contents, and the absence of dead ends.
- `Scenarios` — two concrete sessions.
- `Decimal`, `Lists`, `Wrappers` — decimal numerals, duplicate-free sequences,
  and `Option`.

The handlers themselves have no guards; the restrictions on when they run
come from what the component renders: option buttons only while not agreed
and the cursor is inside the table, the confirmation button only while not
agreed and the cursor is past the table, and "Mark Complete" buttons only
after agreement, disabled once their card is marked. `Offered` collects
exactly these conditions and `Dispatch` refuses (returns `None`) anything
else. Handlers are atomic functions of the current state.

The completed list is an ordered list (a JavaScript array), not a set;
`CompletePrompt` keeps it duplicate-free by its own membership check. The
summary is rendered from `Object.entries(answers)`, which lists integer keys
in ascending order; since answers are only ever recorded under the question
identifiers 1..3 in order, the model lists them by walking the question table.

## Model

| member | source | states |
|---|---|---|
| Intake.IdAt | src/ReceptionApp.jsx:6-38 | the question at position k has identifier k+1, so identifiers run 1..3 without gaps |
| Intake.FirstOption | src/ReceptionApp.jsx:6-38 | every question offers at least one option, which is a valid answer to it |
| Session.Initial | src/ReceptionApp.jsx:41-44 | at mount the session is questioning and the only clicks on offer are the options of the first question |
| Session.HandleAnswer | src/ReceptionApp.jsx:46-49 | answering sets the answer for the given id, adds that key only, advances the cursor by exactly one and keeps every other answer, the flag and the completed list |
| Session.ConfirmAgreement | src/ReceptionApp.jsx:51-53 | confirming sets the flag and changes nothing else |
| Session.CompletePrompt | src/ReceptionApp.jsx:55-59 | after marking, the index is in the list, the old list is a prefix of the new one, at most one entry is added, the entries are the old ones plus the index, an already marked index leaves the state unchanged, and nothing else changes |
| Session.PhaseOf | src/ReceptionApp.jsx:83-85 | the view shown: questioning only with the cursor inside the table and an option on offer; the summary exactly when confirmation is on offer; tracking exactly when agreed; cards clickable only while tracking and options never while tracking |
| Session.Offered | src/ReceptionApp.jsx:83-126 | an option button is offered only for a valid answer to the question under the cursor; a card button only after agreement, for a position 0..2 not yet marked; the confirmation and option buttons only before agreement |
| Session.Dispatch | src/ReceptionApp.jsx:83-126 | a click has an effect exactly when its button is rendered and enabled, and then it is the handler the button calls (an option button passes the id of the question under the cursor); one such click never moves the view backwards, only appends at most one entry to the completed list, leaves that list alone before agreement, and after agreement keeps the flag, cursor and answers |
| Session.ReachableStep | src/ReceptionApp.jsx:83-126 | an offered click from a reachable state leads to a reachable state |
| Invariants.DispatchInv | src/ReceptionApp.jsx:46-126 | every offered click preserves the session invariant |
| Invariants.ReachableInv | src/ReceptionApp.jsx:41-126 | every reachable state satisfies the invariant: cursor within 0..3, answers keyed exactly by ids 1..step with valid options, agreement only at step 3, completed list empty before agreement and otherwise duplicate-free positions in 0..2 |
| Invariants.ReachableAnswers | src/ReceptionApp.jsx:85-99 | in a reachable state there are exactly `step` answers, one for each question before the cursor, each one of that question's options |
| Invariants.ConfirmOnlyWhenAnswered | src/ReceptionApp.jsx:85-110 | confirmation is offered only when all three questions are answered |
| Invariants.CompletedOnlyGrows | src/ReceptionApp.jsx:55-59 | along any run of clicks the completed list only gets entries appended |
| Invariants.AgreedFrozen | src/ReceptionApp.jsx:51-53 | once agreed, every later state is agreed with the same cursor and answers |
| Invariants.AgreedNoIntake | src/ReceptionApp.jsx:83-85 | once agreed, no option or confirmation click is ever offered again |
| Invariants.PhaseNeverRegresses | src/ReceptionApp.jsx:83-85 | the view only moves forward: questioning, then summary, then tracking |
| View.CellColour | src/ReceptionApp.jsx:67-73 | a cell is green iff its position is completed; yellow iff not completed, equal to the cursor and agreed; grey otherwise |
| View.StatusBar | src/ReceptionApp.jsx:64-75 | the bar has one cell per question; a cell is green iff its position is marked, yellow iff unmarked, agreed and equal to the cursor; no cell is yellow before agreement or once the cursor is past the table |
| View.PromptCard | src/ReceptionApp.jsx:118-126 | card i is numbered i+1, shows the answer recorded under question i+1 when there is one, and is disabled iff position i is marked |
| View.PromptCards | src/ReceptionApp.jsx:118-131 | one card per question, card i numbered i+1, echoing the answer recorded under id i+1 (none when missing) and disabled iff position i is marked |
| View.EpilogueVisible | src/ReceptionApp.jsx:133 | the epilogue shows only in the tracking view, only with as many marked entries as questions, and never before agreement |
| View.SummaryLine | src/ReceptionApp.jsx:107 | a summary line starts with "Q" and is exactly as long as the "Q", the decimal digits of the id, ": " and the answer together; `View.SummaryLineRoundTrip` carries its meaning |
| View.LinesRoundTrip | src/ReceptionApp.jsx:106-107 | every line made from an identifier and its recorded answer reads back as that pair |
| View.AnsweredIds | src/ReceptionApp.jsx:106 | the identifiers listed by the summary are recorded, within the table, strictly ascending, and include every table identifier that has an answer |
| View.Summary | src/ReceptionApp.jsx:104-108 | the summary has exactly one line per answered identifier of the table, so at most three; their order and read-back are stated by `View.SummaryReadsBack` |
| View.SummaryReadsBack | src/ReceptionApp.jsx:104-108 | the summary has one line per answered table identifier, in ascending order with none missing, and each line reads back as its identifier and the answer recorded under it |
| View.SummaryLineRoundTrip | src/ReceptionApp.jsx:106-107 | a summary line `Q<id>: <answer>` reads back as exactly that id and answer, whatever the answer text |
| Decimal.ToNatFromNat | src/ReceptionApp.jsx:107 | the decimal numeral of an id reads back as the id |
| Properties.CompletePromptIdempotent | src/ReceptionApp.jsx:55-59 | marking a card twice is the same as marking it once |
| Properties.DisabledIffNoEffect | src/ReceptionApp.jsx:55-58 | a card's button is disabled exactly when its handler would change nothing |
| Properties.CompletePromptKeepsDistinct | src/ReceptionApp.jsx:56-57 | marking never introduces a duplicate |
| Properties.CompleteAllMarks | src/ReceptionApp.jsx:55-59 | marking cards in any order, with repeats, yields exactly the previously marked positions plus those clicked, each once, and leaves cursor, answers and flag alone |
| Properties.CompleteAllReachable | src/ReceptionApp.jsx:118-126 | after agreement, marking card positions in any order stays within reachable states |
| Properties.ReachableCompleted | src/ReceptionApp.jsx:115-126 | in a reachable state the completed list is duplicate-free, holds positions 0..2 only, and is empty before agreement |
| Properties.NoActiveCell | src/ReceptionApp.jsx:64-73 | no status-bar cell is ever yellow in a reachable state |
| Properties.CompletedStaysGreen | src/ReceptionApp.jsx:67-69 | a green cell stays green after any further clicks |
| Properties.FullIffAllPositions | src/ReceptionApp.jsx:133 | a duplicate-free list of card positions has three entries iff every position 0..2 is in it |
| Properties.EpilogueIffAllCompleted | src/ReceptionApp.jsx:133 | in a reachable state the epilogue shows iff agreed and all three cards are marked, in any order |
| Properties.EpilogueAfterAllMarked | src/ReceptionApp.jsx:118-140 | after agreement, clicking every card (any order, repeats allowed) reaches a reachable state that shows the epilogue |
| Properties.CardsEchoAnswers | src/ReceptionApp.jsx:118-126 | after agreement each card shows the recorded answer to its question (never a missing one) and is disabled iff marked |
| Properties.AnsweredIdsUpTo | src/ReceptionApp.jsx:106 | when exactly ids 1..n are answered, the summary lists ids 1..n in that order |
| Properties.SummaryOfFirst | src/ReceptionApp.jsx:104-108 | when exactly ids 1..n are answered, the summary has n lines, line j is the line for id j+1 and reads back as that id and its answer |
| Properties.ReachableSummary | src/ReceptionApp.jsx:104-108 | in a reachable state the summary has one line per answer, in question order, each reading back as that question's id and answer |
| Properties.UnmarkedCardLeft | src/ReceptionApp.jsx:126-133 | a duplicate-free list of card positions shorter than the card count leaves some card unmarked |
| Properties.NextClick | src/ReceptionApp.jsx:83-126 | in every state that satisfies the session invariant (so in every reachable state) and does not show the epilogue, some click is offered that brings the epilogue strictly closer |
| Properties.ReachesEpilogueCons | src/ReceptionApp.jsx:83-140 | an offered click followed by a run that reaches the epilogue is a run that reaches it |
| Properties.EpilogueAlwaysReachable | src/ReceptionApp.jsx:83-140 | from every reachable state some run of offered clicks reaches the epilogue |
| Scenarios.AnsweringScenario | src/ReceptionApp.jsx:6-49 | answering "Tool / Utility", "Perform a task", "Text" records those answers and shows the summary |
| Scenarios.SummaryScenario | src/ReceptionApp.jsx:106-107 | that summary is exactly "Q1: Tool / Utility", "Q2: Perform a task", "Q3: Text" |
| Scenarios.AnsweredLines | src/ReceptionApp.jsx:107 | the lines for ids 1, 2, 3 with those answers are spelled "Q1: …", "Q2: …", "Q3: …" |
| Scenarios.ForeignOptionRefused | src/ReceptionApp.jsx:85-99 | at mount, an option of another question, confirmation and marking are all refused |
| Scenarios.CompletionScenario | src/ReceptionApp.jsx:51-138 | confirming and marking cards 2, 0, 1 shows the epilogue with all cells green; card 0 is then disabled and its handler changes nothing |

## Left out

- JSX markup, CSS classes and the `Card`/`Button` components: presentation and library code not part of this model; colours and views are enumerations.
- React state scheduling and batching: each handler is an atomic function of the current state.
- The "Export Blueprint" button: it has no handler, so there is no behaviour to model.
- Question wording and the epilogue's fixed questions: display text only.
- View.Summary: lists only answers recorded under the question table's identifiers; the general key ordering of `Object.entries` (integer keys ascending, other keys in insertion order) is not modelled, since no other key is ever recorded.
- View.CellColour: the yellow "active" colour compares the cell with the frozen cursor; the model keeps that literal comparison and proves it never fires, rather than guessing at an intended per-card cursor.
