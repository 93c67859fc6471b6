/** The answer side of the data layer (server/answerDao.js): storing one
    respondent's submission and reading back every answer to a survey. */
module AnswerDao {
  import opened Wrappers
  import opened Shapes
  import opened Seqs
  import opened Decimal
  import opened Tables

  /** The question and stored text of one `singleanswers` row to be written. */
  datatype Cell = Cell(questionId: int, answer: string)

  /** The rows one entry of a submission produces: an open question with
      text gives that text, a closed question gives one row per ticked option
      holding the option's id as text, and an untouched question gives none. */
  function EntryCells(e: Entry): (cs: seq<Cell>)
    requires Shaped(e)
    ensures forall k :: 0 <= k < |cs| ==> cs[k].questionId == e.questionId
  {
    match e.answer
    case None => []
    case Some(r) =>
      if e.open then
        (if r.text != "" then [Cell(e.questionId, r.text)] else [])
      else
        seq(|r.ids|, k requires 0 <= k < |r.ids| => Cell(e.questionId, IntText(r.ids[k])))
  }

  /** What each kind of entry produces, and that a closed answer's rows read
      back (with `parseInt`) as exactly the ticked option ids. */
  lemma EntryCellsRule(e: Entry)
    requires Shaped(e)
    ensures e.open && e.answer.Some? && e.answer.value.text != "" ==>
      EntryCells(e) == [Cell(e.questionId, e.answer.value.text)]
    ensures e.open && (e.answer.None? || e.answer.value.text == "") ==> EntryCells(e) == []
    ensures !e.open && e.answer.None? ==> EntryCells(e) == []
    ensures !e.open && e.answer.Some? ==>
      && |EntryCells(e)| == |e.answer.value.ids|
      && forall k :: 0 <= k < |EntryCells(e)| ==> ParseInt(EntryCells(e)[k].answer) == Some(e.answer.value.ids[k])
  {
    if !e.open && e.answer.Some? {
      var ids := e.answer.value.ids;
      forall k | 0 <= k < |ids|
        ensures ParseInt(EntryCells(e)[k].answer) == Some(ids[k])
      {
        ParseIntText(ids[k]);
      }
    }
  }

  predicate AllShaped(es: seq<Entry>) {
    forall i :: 0 <= i < |es| ==> Shaped(es[i])
  }

  /** The rows of a whole submission, entry after entry. */
  function Cells(es: seq<Entry>): (cs: seq<Cell>)
    requires AllShaped(es)
  {
    if es == [] then [] else Cells(es[..|es| - 1]) + EntryCells(es[|es| - 1])
  }

  /** Every row of a submission belongs to one of its entries' questions. */
  lemma {:induction false} CellsQuestions(es: seq<Entry>)
    requires AllShaped(es)
    ensures forall k :: 0 <= k < |Cells(es)| ==>
      exists i :: 0 <= i < |es| && Cells(es)[k].questionId == es[i].questionId
  {
    if es != [] {
      var init := es[..|es| - 1];
      CellsQuestions(init);
      var last := EntryCells(es[|es| - 1]);
      forall k | 0 <= k < |Cells(es)|
        ensures exists i :: 0 <= i < |es| && Cells(es)[k].questionId == es[i].questionId
      {
        if k < |Cells(init)| {
          var i :| 0 <= i < |init| && Cells(init)[k].questionId == init[i].questionId;
          assert Cells(es)[k] == Cells(init)[k];
          assert es[i] == init[i];
        } else {
          assert Cells(es)[k] == last[k - |Cells(init)|];
          assert Cells(es)[k].questionId == es[|es| - 1].questionId;
        }
      }
    } else {
      assert Cells(es) == [];
    }
  }

  /** The rows `cells` become when their keys start at `next`. */
  function Stamp(next: int, surveyId: int, userId: int, cells: seq<Cell>): (rows: seq<AnswerRow>)
    ensures |rows| == |cells|
  {
    seq(|cells|, k requires 0 <= k < |cells| =>
      AnswerRow(next + k, surveyId, cells[k].questionId, cells[k].answer, userId))
  }

  /** `t` after inserting `cells` one by one as answers of respondent `userId`. */
  function WithAnswers(t: Tables, surveyId: int, userId: int, cells: seq<Cell>): Tables {
    t.(answers := t.answers + Stamp(t.nextAnswer, surveyId, userId, cells),
       nextAnswer := t.nextAnswer + |cells|)
  }

  /** Inserting one more row extends the stamped rows by one. */
  lemma WithAnswersSnoc(t: Tables, surveyId: int, userId: int, cells: seq<Cell>, c: Cell)
    ensures var u := WithAnswers(t, surveyId, userId, cells);
      WithAnswers(t, surveyId, userId, cells + [c]) ==
      u.(answers := u.answers + [AnswerRow(u.nextAnswer, surveyId, c.questionId, c.answer, userId)],
         nextAnswer := u.nextAnswer + 1)
  {
    var u := WithAnswers(t, surveyId, userId, cells);
    assert Stamp(t.nextAnswer, surveyId, userId, cells + [c]) ==
      Stamp(t.nextAnswer, surveyId, userId, cells) + [AnswerRow(u.nextAnswer, surveyId, c.questionId, c.answer, userId)];
  }

  /** The tables after `createAnswer`: one respondent row, the survey's
      counter bumped, then every row of the submission. */
  function AfterCreateAnswer(t: Tables, name: string, surveyId: int, es: seq<Entry>): Tables
    requires AllShaped(es)
  {
    var t1 := t.(respondents := t.respondents + [RespondentRow(t.nextRespondent, name, surveyId)],
                 nextRespondent := t.nextRespondent + 1,
                 surveys := Bumped(t.surveys, surveyId));
    WithAnswers(t1, surveyId, t.nextRespondent, Cells(es))
  }

  /** Storing cells in two batches is storing them all at once. */
  lemma WithAnswersAppend(t: Tables, surveyId: int, userId: int, c1: seq<Cell>, c2: seq<Cell>)
    ensures WithAnswers(WithAnswers(t, surveyId, userId, c1), surveyId, userId, c2) ==
      WithAnswers(t, surveyId, userId, c1 + c2)
  {
    var n := t.nextAnswer;
    assert Stamp(n, surveyId, userId, c1 + c2) ==
      Stamp(n, surveyId, userId, c1) + Stamp(n + |c1|, surveyId, userId, c2);
  }

  /** The body of the loop over a submission's entries: the rows of one entry. */
  method StoreEntry(db: Database, surveyId: int, userId: int, e: Entry)
    requires Shaped(e)
    modifies db
    ensures db.tables == WithAnswers(old(db.tables), surveyId, userId, EntryCells(e))
  {
    ghost var base := db.tables;
    assert WithAnswers(base, surveyId, userId, []) == base;
    if e.open && e.answer.Some? && Truthy(e.answer.value) && e.answer.value.text != "" {
      var _ := db.InsertAnswer(surveyId, e.questionId, e.answer.value.text, userId);
      WithAnswersSnoc(base, surveyId, userId, [], Cell(e.questionId, e.answer.value.text));
    } else if !e.open && e.answer.Some? {
      var ids := e.answer.value.ids;
      var k := 0;
      while k < |ids|
        invariant 0 <= k <= |ids|
        invariant db.tables == WithAnswers(base, surveyId, userId, EntryCells(e)[..k])
      {
        var _ := db.InsertAnswer(surveyId, e.questionId, IntText(ids[k]), userId);
        WithAnswersSnoc(base, surveyId, userId, EntryCells(e)[..k], EntryCells(e)[k]);
        assert EntryCells(e)[..k + 1] == EntryCells(e)[..k] + [EntryCells(e)[k]];
        k := k + 1;
      }
      assert EntryCells(e)[..|ids|] == EntryCells(e);
    }
  }

  /** createAnswer: stores the submission of respondent `name` and returns
      the key of the new respondent row. */
  method CreateAnswer(db: Database, name: string, surveyId: int, entries: seq<Entry>) returns (userId: int)
    requires AllShaped(entries)
    modifies db
    ensures userId == old(db.tables).nextRespondent
    ensures db.tables == AfterCreateAnswer(old(db.tables), name, surveyId, entries)
  {
    userId := db.InsertRespondent(name, surveyId);
    db.BumpAnswers(surveyId);
    ghost var base := db.tables;
    assert WithAnswers(base, surveyId, userId, []) == base;
    var i := 0;
    while i < |entries|
      invariant 0 <= i <= |entries|
      invariant db.tables == WithAnswers(base, surveyId, userId, Cells(entries[..i]))
    {
      assert entries[..i + 1][..i] == entries[..i];
      StoreEntry(db, surveyId, userId, entries[i]);
      WithAnswersAppend(base, surveyId, userId, Cells(entries[..i]), EntryCells(entries[i]));
      i := i + 1;
    }
    assert entries[..|entries|] == entries;
  }

  /** A submission adds exactly one respondent, raises the answer counter of
      its survey by one (and no other counter, nothing else in the survey
      rows) even when it holds no answer at all, and leaves the questions and
      options alone. */
  lemma CreateAnswerCounts(t: Tables, name: string, surveyId: int, es: seq<Entry>)
    requires AllShaped(es)
    ensures var a := AfterCreateAnswer(t, name, surveyId, es);
      && a.respondents == t.respondents + [RespondentRow(t.nextRespondent, name, surveyId)]
      && |a.surveys| == |t.surveys|
      && (forall i :: 0 <= i < |t.surveys| ==>
            a.surveys[i].(answers := t.surveys[i].answers) == t.surveys[i] &&
            a.surveys[i].answers == t.surveys[i].answers + (if t.surveys[i].id == surveyId then 1 else 0))
      && a.questions == t.questions && a.options == t.options
  {
  }

  /** The rows a submission adds: the respondent row with the next
      respondent key, then, after the old answer rows, one per cell, each
      carrying the survey and the new respondent, with new keys. */
  lemma CreateAnswerRows(t: Tables, name: string, surveyId: int, es: seq<Entry>)
    requires AllShaped(es)
    ensures var a := AfterCreateAnswer(t, name, surveyId, es);
      |a.respondents| == |t.respondents| + 1 &&
      a.respondents[|t.respondents|] == RespondentRow(t.nextRespondent, name, surveyId)
    ensures var a := AfterCreateAnswer(t, name, surveyId, es);
      && |a.answers| == |t.answers| + |Cells(es)|
      && a.answers[..|t.answers|] == t.answers
      && forall k :: |t.answers| <= k < |a.answers| ==>
           && a.answers[k].surveyId == surveyId
           && a.answers[k].respondentId == t.nextRespondent
           && a.answers[k].id == t.nextAnswer + (k - |t.answers|)
           && a.answers[k].questionId == Cells(es)[k - |t.answers|].questionId
           && a.answers[k].answer == Cells(es)[k - |t.answers|].answer
  {
    var a := AfterCreateAnswer(t, name, surveyId, es);
    var cs := Cells(es);
    var added := Stamp(t.nextAnswer, surveyId, t.nextRespondent, cs);
    assert a.respondents == t.respondents + [RespondentRow(t.nextRespondent, name, surveyId)];
    assert a.answers == t.answers + added;
    forall k | |t.answers| <= k < |a.answers|
      ensures a.answers[k] == AnswerRow(t.nextAnswer + (k - |t.answers|), surveyId,
                                        cs[k - |t.answers|].questionId, cs[k - |t.answers|].answer, t.nextRespondent)
    {
      assert a.answers[k] == added[k - |t.answers|];
    }
  }

  /** Storing a submission keeps every key below its counter. */
  lemma CreateAnswerLinked(t: Tables, name: string, surveyId: int, es: seq<Entry>)
    requires AllShaped(es) && Linked(t)
    ensures Linked(AfterCreateAnswer(t, name, surveyId, es))
  {
    var a := AfterCreateAnswer(t, name, surveyId, es);
    assert forall i :: 0 <= i < |t.surveys| ==> a.surveys[i].id == t.surveys[i].id;
  }

  // ----- reading the answers back -----

  function AnswerViews(rows: seq<AnswerRow>): (vs: seq<AnswerView>)
    ensures |vs| == |rows|
  {
    seq(|rows|, i requires 0 <= i < |rows| =>
      AnswerView(rows[i].id, rows[i].questionId, rows[i].answer, rows[i].respondentId))
  }

  function RespondentViews(rows: seq<RespondentRow>): (vs: seq<RespondentView>)
    ensures |vs| == |rows|
  {
    seq(|rows|, i requires 0 <= i < |rows| => RespondentView(rows[i].id, rows[i].name))
  }

  /** getAnswers: the respondents of the survey and all their answer rows,
      each in table order, with the columns renamed. */
  function GetAnswers(t: Tables, surveyId: int): AnswerSet {
    AnswerSet(
      RespondentViews(Filter(t.respondents, (r: RespondentRow) => r.surveyId == surveyId)),
      AnswerViews(Filter(t.answers, (a: AnswerRow) => a.surveyId == surveyId)))
  }

  /** The listing holds one view per stored row of that survey, and nothing
      from any other survey. */
  lemma GetAnswersMembers(t: Tables, surveyId: int)
    ensures forall r :: r in t.respondents && r.surveyId == surveyId ==>
      RespondentView(r.id, r.name) in GetAnswers(t, surveyId).usernameList
    ensures forall a :: a in t.answers && a.surveyId == surveyId ==>
      AnswerView(a.id, a.questionId, a.answer, a.respondentId) in GetAnswers(t, surveyId).answers
    ensures forall v :: v in GetAnswers(t, surveyId).usernameList ==>
      exists r :: r in t.respondents && r.surveyId == surveyId && v == RespondentView(r.id, r.name)
    ensures forall v :: v in GetAnswers(t, surveyId).answers ==>
      exists a :: (a in t.answers && a.surveyId == surveyId &&
        v == AnswerView(a.id, a.questionId, a.answer, a.respondentId))
  {
    var rs := Filter(t.respondents, (r: RespondentRow) => r.surveyId == surveyId);
    var kept := Filter(t.answers, (a: AnswerRow) => a.surveyId == surveyId);
    FilterMembers(t.respondents, (r: RespondentRow) => r.surveyId == surveyId);
    FilterMembers(t.answers, (a: AnswerRow) => a.surveyId == surveyId);
    forall r | r in t.respondents && r.surveyId == surveyId
      ensures RespondentView(r.id, r.name) in GetAnswers(t, surveyId).usernameList
    {
      var i :| 0 <= i < |rs| && rs[i] == r;
      assert RespondentViews(rs)[i] == RespondentView(r.id, r.name);
    }
    forall a | a in t.answers && a.surveyId == surveyId
      ensures AnswerView(a.id, a.questionId, a.answer, a.respondentId) in GetAnswers(t, surveyId).answers
    {
      var i :| 0 <= i < |kept| && kept[i] == a;
      assert AnswerViews(kept)[i] == AnswerView(a.id, a.questionId, a.answer, a.respondentId);
    }
    forall v | v in GetAnswers(t, surveyId).usernameList
      ensures exists r :: r in t.respondents && r.surveyId == surveyId && v == RespondentView(r.id, r.name)
    {
      var i :| 0 <= i < |rs| && RespondentViews(rs)[i] == v;
      assert rs[i] in rs;
    }
    forall v | v in GetAnswers(t, surveyId).answers
      ensures exists a :: (a in t.answers && a.surveyId == surveyId &&
        v == AnswerView(a.id, a.questionId, a.answer, a.respondentId))
    {
      var i :| 0 <= i < |kept| && AnswerViews(kept)[i] == v;
      assert kept[i] in kept;
    }
  }

  /** What the survey's creator sees after a submission: the old listing
      with the new respondent at the end and the submission's rows after the
      old rows. Every other survey's listing is unchanged. */
  lemma CreateThenGetAnswers(t: Tables, name: string, surveyId: int, es: seq<Entry>, other: int)
    requires AllShaped(es) && other != surveyId
    ensures var before := GetAnswers(t, surveyId);
      GetAnswers(AfterCreateAnswer(t, name, surveyId, es), surveyId) ==
      AnswerSet(before.usernameList + [RespondentView(t.nextRespondent, name)],
        before.answers + AnswerViews(Stamp(t.nextAnswer, surveyId, t.nextRespondent, Cells(es))))
    ensures GetAnswers(AfterCreateAnswer(t, name, surveyId, es), other) == GetAnswers(t, other)
  {
    var added := Stamp(t.nextAnswer, surveyId, t.nextRespondent, Cells(es));
    var me := RespondentRow(t.nextRespondent, name, surveyId);
    var pr := (r: RespondentRow) => r.surveyId == surveyId;
    var pa := (a: AnswerRow) => a.surveyId == surveyId;
    FilterAppend(t.respondents, [me], pr);
    FilterAll([me], pr);
    FilterAppend(t.answers, added, pa);
    FilterAll(added, pa);
    ViewsAppend(Filter(t.respondents, pr), [me]);
    AnswerViewsAppend(Filter(t.answers, pa), added);
    var qr := (r: RespondentRow) => r.surveyId == other;
    var qa := (a: AnswerRow) => a.surveyId == other;
    FilterAppend(t.respondents, [me], qr);
    FilterNone([me], qr);
    FilterAppend(t.answers, added, qa);
    FilterNone(added, qa);
    assert Filter(t.respondents, qr) + [] == Filter(t.respondents, qr);
    assert Filter(t.answers, qa) + [] == Filter(t.answers, qa);
  }

  lemma ViewsAppend(a: seq<RespondentRow>, b: seq<RespondentRow>)
    ensures RespondentViews(a + b) == RespondentViews(a) + RespondentViews(b)
  {
  }

  lemma AnswerViewsAppend(a: seq<AnswerRow>, b: seq<AnswerRow>)
    ensures AnswerViews(a + b) == AnswerViews(a) + AnswerViews(b)
  {
  }
}
