/** The fixed intake questionnaire of the reception flow (src/ReceptionApp.jsx,
    the `intakeQuestions` table). Only identifiers and option labels are kept:
    the question wording is display text. */
module Intake {

  /** A question: its identifier and the closed list of option labels, one
      button per label. */
  datatype Question = Question(id: nat, options: seq<string>)

  /** The question table, in presentation order. */
  const Questions: seq<Question> := [
    Question(1, ["Tool / Utility", "Game", "Explorer / Mapper", "Narrative / Symbolic Space",
                 "Marketplace", "Educational App", "Social Platform", "Other"]),
    Question(2, ["Perform a task", "Search or discover", "Create or modify content",
                 "Deliver experience", "Analyze or measure", "Other"]),
    Question(3, ["Text", "Audio", "Video", "File Upload", "User Interaction", "AI Prompt", "Other"])
  ]

  /** The number of questions; also the number of prompt cards and of
      status-bar cells. */
  const QuestionCount: nat := |Questions|

  /** The identifier of the question at position `k`: positions are 0-based,
      identifiers 1-based, so the table is numbered without gaps. */
  function IdAt(k: nat): (id: nat)
    requires k < QuestionCount
    ensures id == k + 1
    ensures 1 <= id <= QuestionCount
  {
    Questions[k].id
  }

  /** `answer` is one of the labels offered for the question with identifier `id`. */
  predicate ValidAnswer(id: nat, answer: string)
  {
    1 <= id <= QuestionCount && answer in Questions[id - 1].options
  }

  /** The first option of the question at position `k`, a choice that is always
      on offer: no question has an empty option list. */
  function FirstOption(k: nat): (answer: string)
    requires k < QuestionCount
    ensures ValidAnswer(IdAt(k), answer)
  {
    Questions[k].options[0]
  }
}
