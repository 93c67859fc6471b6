/** The JSON shapes that travel between the pages and the server
    (client/src/api/API.js passes them through unchanged). Flags that the
    source keeps as 0/1 numbers are booleans here. */
module Shapes {
  import opened Wrappers

  /** An option of a question in the editor: its text and a position that
      tells it apart from the other options of the same question. */
  datatype Choice = Choice(title: string, position: int)

  /** A question as the survey editor holds it and as a new survey is sent. */
  datatype Question = Question(
    title: string,
    open: bool,
    optional: bool,
    min: int,
    max: int,
    position: int,
    answers: seq<Choice>)

  /** What a respondent has given to one question: the text of an open
      question, or the ids of the ticked options of a closed one. */
  datatype Reply = Text(text: string) | Picks(ids: seq<int>)

  /** JavaScript truthiness of an answer: empty text is false, any array
      (even an empty one) is true. */
  predicate Truthy(r: Reply) {
    r.Picks? || r.text != ""
  }

  /** One entry of the respondent's answer state, as a submission sends it.
      `answer` is `None` while the question has not been touched. */
  datatype Entry = Entry(
    questionId: int,
    optional: bool,
    open: bool,
    min: int,
    max: int,
    answer: Option<Reply>)

  /** The open-question page sends text and the closed-question page sends
      ticked options; no other combination is ever produced. */
  predicate Shaped(e: Entry) {
    match e.answer
    case None => true
    case Some(r) => r.Text? == e.open
  }

  /** A stored answer row as the answer listing returns it. */
  datatype AnswerView = AnswerView(id: int, questionId: int, answer: string, userId: int)

  /** A respondent as the answer listing returns it. */
  datatype RespondentView = RespondentView(id: int, name: string)

  /** Everything the creator receives about the answers to one survey. */
  datatype AnswerSet = AnswerSet(usernameList: seq<RespondentView>, answers: seq<AnswerView>)

  /** An option of a stored closed question: its id and text, no position. */
  datatype OptionView = OptionView(id: int, text: string)

  /** A stored question as a respondent's page receives it. Only closed
      questions carry `surveyid`. */
  datatype QuestionView = QuestionView(
    id: int,
    surveyId: Option<int>,
    title: string,
    open: bool,
    optional: bool,
    minAnswers: int,
    maxAnswers: int,
    position: int,
    answers: seq<OptionView>)

  datatype SurveyView = SurveyView(id: int, title: string, questions: seq<QuestionView>)

  /** A line of the survey lists: id, title and number of respondents. */
  datatype SurveySummary = SurveySummary(id: int, title: string, answers: int)
}
