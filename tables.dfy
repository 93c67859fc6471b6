/** The SQLite database of the server as in-memory tables. Every table has
    an integer key that the database hands out in increasing order; each
    `INSERT` appends one row carrying the next key and each `SELECT … WHERE`
    is a filter. */
module Tables {

  /** `surveys(id, title, userid, answers)`: `answers` counts respondents. */
  datatype SurveyRow = SurveyRow(id: int, title: string, userId: int, answers: int)

  /** `questions(id, surveyid, title, open, optional, minanswers, maxanswers, position)` */
  datatype QuestionRow = QuestionRow(
    id: int,
    surveyId: int,
    title: string,
    open: bool,
    optional: bool,
    minAnswers: int,
    maxAnswers: int,
    position: int)

  /** `closedanswers(id, questionid, text)`: an option of a closed question. */
  datatype OptionRow = OptionRow(id: int, questionId: int, text: string)

  /** `answers(id, name, surveyid)`: one respondent of a survey. */
  datatype RespondentRow = RespondentRow(id: int, name: string, surveyId: int)

  /** `singleanswers(id, surveyid, questionid, answer, answerid)`: one answer,
      `answerid` naming the respondent. */
  datatype AnswerRow = AnswerRow(id: int, surveyId: int, questionId: int, answer: string, respondentId: int)

  /** The five tables and the next key of each. */
  datatype Tables = Tables(
    surveys: seq<SurveyRow>,
    questions: seq<QuestionRow>,
    options: seq<OptionRow>,
    respondents: seq<RespondentRow>,
    answers: seq<AnswerRow>,
    nextSurvey: int,
    nextQuestion: int,
    nextOption: int,
    nextRespondent: int,
    nextAnswer: int)

  /** Every key lies below its table's next key, and every question and
      option points at a survey or question that was created before it. */
  predicate Linked(t: Tables) {
    && (forall i :: 0 <= i < |t.surveys| ==> t.surveys[i].id < t.nextSurvey)
    && (forall i :: 0 <= i < |t.questions| ==>
          t.questions[i].id < t.nextQuestion && t.questions[i].surveyId < t.nextSurvey)
    && (forall i :: 0 <= i < |t.options| ==>
          t.options[i].id < t.nextOption && t.options[i].questionId < t.nextQuestion)
    && (forall i :: 0 <= i < |t.respondents| ==> t.respondents[i].id < t.nextRespondent)
    && (forall i :: 0 <= i < |t.answers| ==> t.answers[i].id < t.nextAnswer)
  }

  /** `UPDATE surveys SET answers = answers + 1 WHERE id = surveyId` */
  function Bumped(rows: seq<SurveyRow>, surveyId: int): (r: seq<SurveyRow>)
    ensures |r| == |rows|
    ensures forall i :: 0 <= i < |rows| ==> r[i].(answers := rows[i].answers) == rows[i]
    ensures forall i :: 0 <= i < |rows| ==>
      r[i].answers - rows[i].answers == if rows[i].id == surveyId then 1 else 0
  {
    seq(|rows|, i requires 0 <= i < |rows| =>
      if rows[i].id == surveyId then rows[i].(answers := rows[i].answers + 1) else rows[i])
  }

  /** The database the server works on. */
  class Database {
    var tables: Tables

    constructor ()
      ensures tables == Tables([], [], [], [], [], 1, 1, 1, 1, 1)
      ensures Linked(tables)
    {
      tables := Tables([], [], [], [], [], 1, 1, 1, 1, 1);
    }

    /** `INSERT INTO surveys(title, userid, answers)`; the new key is returned. */
    method InsertSurvey(title: string, userId: int, answers: int) returns (id: int)
      modifies this
      ensures id == old(tables.nextSurvey)
      ensures tables == old(tables).(surveys := old(tables.surveys) + [SurveyRow(id, title, userId, answers)],
        nextSurvey := id + 1)
    {
      id := tables.nextSurvey;
      tables := tables.(surveys := tables.surveys + [SurveyRow(id, title, userId, answers)],
        nextSurvey := id + 1);
    }

    /** `INSERT INTO questions(…)`; the new key is returned. */
    method InsertQuestion(surveyId: int, title: string, open: bool, optional: bool,
                          minAnswers: int, maxAnswers: int, position: int) returns (id: int)
      modifies this
      ensures id == old(tables.nextQuestion)
      ensures tables == old(tables).(questions := old(tables.questions) +
        [QuestionRow(id, surveyId, title, open, optional, minAnswers, maxAnswers, position)],
        nextQuestion := id + 1)
    {
      id := tables.nextQuestion;
      tables := tables.(questions := tables.questions +
        [QuestionRow(id, surveyId, title, open, optional, minAnswers, maxAnswers, position)],
        nextQuestion := id + 1);
    }

    /** `INSERT INTO closedanswers(questionid, text)`; the new key is returned. */
    method InsertOption(questionId: int, text: string) returns (id: int)
      modifies this
      ensures id == old(tables.nextOption)
      ensures tables == old(tables).(options := old(tables.options) + [OptionRow(id, questionId, text)],
        nextOption := id + 1)
    {
      id := tables.nextOption;
      tables := tables.(options := tables.options + [OptionRow(id, questionId, text)],
        nextOption := id + 1);
    }

    /** `INSERT INTO answers(name, surveyid)`; the new key is returned. */
    method InsertRespondent(name: string, surveyId: int) returns (id: int)
      modifies this
      ensures id == old(tables.nextRespondent)
      ensures tables == old(tables).(respondents := old(tables.respondents) + [RespondentRow(id, name, surveyId)],
        nextRespondent := id + 1)
    {
      id := tables.nextRespondent;
      tables := tables.(respondents := tables.respondents + [RespondentRow(id, name, surveyId)],
        nextRespondent := id + 1);
    }

    /** `INSERT INTO singleanswers(surveyid, questionid, answer, answerid)`. */
    method InsertAnswer(surveyId: int, questionId: int, answer: string, respondentId: int) returns (id: int)
      modifies this
      ensures id == old(tables.nextAnswer)
      ensures tables == old(tables).(answers := old(tables.answers) +
        [AnswerRow(id, surveyId, questionId, answer, respondentId)], nextAnswer := id + 1)
    {
      id := tables.nextAnswer;
      tables := tables.(answers := tables.answers +
        [AnswerRow(id, surveyId, questionId, answer, respondentId)], nextAnswer := id + 1);
    }

    /** `UPDATE surveys SET answers = answers + 1 WHERE id = ?` */
    method BumpAnswers(surveyId: int)
      modifies this
      ensures tables == old(tables).(surveys := Bumped(old(tables.surveys), surveyId))
    {
      tables := tables.(surveys := Bumped(tables.surveys, surveyId));
    }
  }
}
