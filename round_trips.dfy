/** Properties that span the pages and the data layer: what the editor
    publishes reads back as it was written, and what a respondent ticks is
    shown ticked to the survey's creator. */
module RoundTrips {
  import opened Wrappers
  import opened Shapes
  import opened Decimal
  import opened Tables
  import Editor
  import SurveyPage
  import AnswerDao
  import SurveyDao

  /** A survey whose questions the editor keeps tidy is stored and read back with
      every question in the order written, with its fields and its option
      texts; open questions come back without their placeholder option. */
  lemma PublishedSurveyReadsBack(t: Tables, title: string, userId: int, qs: seq<Question>)
    requires Linked(t) && Editor.Tidy(qs)
    ensures var r := SurveyDao.GetQuestions(SurveyDao.AfterCreateSurvey(t, title, userId, qs), t.nextSurvey);
      && r.Success? && r.value.title == title && |r.value.questions| == |qs|
      && forall i :: 0 <= i < |qs| ==> SurveyDao.Matches(r.value.questions[i], qs[i])
  {
    assert forall i, j :: 0 <= i < j < |qs| ==> qs[i].position <= qs[j].position;
    SurveyDao.CreateThenGetQuestions(t, title, userId, qs);
  }

  /** The rows of one entry are among the rows of the whole submission. */
  lemma {:induction false} EntryCellsInCells(es: seq<Entry>, i: int)
    requires AnswerDao.AllShaped(es) && 0 <= i < |es|
    ensures forall c :: c in AnswerDao.EntryCells(es[i]) ==> c in AnswerDao.Cells(es)
  {
    var init := es[..|es| - 1];
    assert AnswerDao.Cells(es) == AnswerDao.Cells(init) + AnswerDao.EntryCells(es[|es| - 1]);
    if i < |es| - 1 {
      assert es[i] == init[i];
      EntryCellsInCells(init, i);
    }
  }

  /** An option id a respondent ticked in a closed question is shown ticked
      when the survey's creator selects that respondent: the stored row holds
      the id as text, the listing returns it, the selection keeps it and
      `parseInt` reads the id back. */
  lemma TickedShownTicked(t: Tables, name: string, surveyId: int, es: seq<Entry>, i: int, k: int)
    requires AnswerDao.AllShaped(es) && 0 <= i < |es|
    requires !es[i].open && es[i].answer.Some? && 0 <= k < |es[i].answer.value.ids|
    ensures var listing := AnswerDao.GetAnswers(AnswerDao.AfterCreateAnswer(t, name, surveyId, es), surveyId);
      SurveyPage.Ticked(SurveyPage.RowsOf(listing.answers, t.nextRespondent),
        es[i].questionId, es[i].answer.value.ids[k])
  {
    var e := es[i];
    var id := e.answer.value.ids[k];
    var uid := t.nextRespondent;
    var a := AnswerDao.AfterCreateAnswer(t, name, surveyId, es);
    var cells := AnswerDao.Cells(es);
    var c := AnswerDao.Cell(e.questionId, IntText(id));
    assert AnswerDao.EntryCells(e)[k] == c;
    EntryCellsInCells(es, i);
    assert c in cells;
    var m :| 0 <= m < |cells| && cells[m] == c;
    AnswerDao.CreateAnswerRows(t, name, surveyId, es);
    var row := a.answers[|t.answers| + m];
    assert row in a.answers;
    assert row.surveyId == surveyId && row.respondentId == uid;
    AnswerDao.GetAnswersMembers(a, surveyId);
    var listing := AnswerDao.GetAnswers(a, surveyId);
    var v := AnswerView(row.id, row.questionId, row.answer, row.respondentId);
    assert v in listing.answers;
    SurveyPage.RowsOfMembers(listing.answers, uid);
    ParseIntText(id);
    assert v in SurveyPage.RowsOf(listing.answers, uid) && v.questionId == e.questionId &&
      ParseInt(v.answer) == Some(id);
  }
}
