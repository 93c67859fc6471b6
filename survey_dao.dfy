/** The survey side of the data layer (server/surveyDao.js): the survey
    lists, reading one survey with its questions and options, and storing a
    new survey. */
module SurveyDao {
  import opened Wrappers
  import opened Shapes
  import opened Seqs
  import opened Tables

  // ----- the survey lists -----

  function Summary(row: SurveyRow): SurveySummary {
    SurveySummary(row.id, row.title, row.answers)
  }

  function Summaries(rows: seq<SurveyRow>): (vs: seq<SurveySummary>)
    ensures |vs| == |rows|
  {
    seq(|rows|, i requires 0 <= i < |rows| => Summary(rows[i]))
  }

  function OwnedBy(userId: int): SurveyRow -> bool {
    (s: SurveyRow) => s.userId == userId
  }

  /** listAllSurveys: every survey, in table order. */
  function ListAllSurveys(t: Tables): (vs: seq<SurveySummary>)
    ensures |vs| == |t.surveys|
  {
    Summaries(t.surveys)
  }

  /** listUserSurveys: the surveys created by `userId`, in table order. */
  function ListUserSurveys(t: Tables, userId: int): (vs: seq<SurveySummary>)
    ensures |vs| <= |t.surveys|
  {
    Summaries(Filter(t.surveys, OwnedBy(userId)))
  }

  lemma SummariesMembers(rows: seq<SurveyRow>)
    ensures forall v :: v in Summaries(rows) <==> exists row :: row in rows && v == Summary(row)
  {
    forall v | v in Summaries(rows)
      ensures exists row :: row in rows && v == Summary(row)
    {
      var i :| 0 <= i < |rows| && Summaries(rows)[i] == v;
      assert rows[i] in rows;
    }
    forall row | row in rows
      ensures Summary(row) in Summaries(rows)
    {
      var i :| 0 <= i < |rows| && rows[i] == row;
      assert Summaries(rows)[i] == Summary(row);
    }
  }

  /** A user's list holds exactly the summaries of the surveys they own, and
      every one of them is also in the list of all surveys. */
  lemma UserSurveys(t: Tables, userId: int)
    ensures forall v :: v in ListUserSurveys(t, userId) <==>
      exists row :: row in t.surveys && row.userId == userId && v == Summary(row)
    ensures forall v :: v in ListUserSurveys(t, userId) ==> v in ListAllSurveys(t)
  {
    var mine := Filter(t.surveys, OwnedBy(userId));
    FilterMembers(t.surveys, OwnedBy(userId));
    SummariesMembers(mine);
    SummariesMembers(t.surveys);
  }

  // ----- reading one survey -----

  function OfQuestion(questionId: int): OptionRow -> bool {
    (o: OptionRow) => o.questionId == questionId
  }

  function OfSurvey(surveyId: int): QuestionRow -> bool {
    (q: QuestionRow) => q.surveyId == surveyId
  }

  function OptionViews(rows: seq<OptionRow>): (vs: seq<OptionView>)
    ensures |vs| == |rows|
  {
    seq(|rows|, i requires 0 <= i < |rows| => OptionView(rows[i].id, rows[i].text))
  }

  /** getClosedAnswers: the options of question `questionId` as {id, text},
      in table order. */
  function GetClosedAnswers(t: Tables, questionId: int): seq<OptionView> {
    OptionViews(Filter(t.options, OfQuestion(questionId)))
  }

  /** The options listed are exactly the stored options of that question,
      with their position gone. */
  lemma ClosedAnswersMembers(t: Tables, questionId: int)
    ensures forall v :: v in GetClosedAnswers(t, questionId) <==>
      exists o :: o in t.options && o.questionId == questionId && v == OptionView(o.id, o.text)
  {
    var kept := Filter(t.options, OfQuestion(questionId));
    FilterMembers(t.options, OfQuestion(questionId));
    forall v | v in GetClosedAnswers(t, questionId)
      ensures exists o :: o in t.options && o.questionId == questionId && v == OptionView(o.id, o.text)
    {
      var i :| 0 <= i < |kept| && OptionViews(kept)[i] == v;
      assert kept[i] in kept;
    }
    forall o | o in t.options && o.questionId == questionId
      ensures OptionView(o.id, o.text) in GetClosedAnswers(t, questionId)
    {
      var i :| 0 <= i < |kept| && kept[i] == o;
      assert OptionViews(kept)[i] == OptionView(o.id, o.text);
    }
  }

  /** Non-decreasing positions. */
  predicate Ascending(rows: seq<QuestionRow>) {
    forall i, j :: 0 <= i < j < |rows| ==> rows[i].position <= rows[j].position
  }

  /** `x` placed before the first row whose position is not smaller. */
  function InsertByPosition(x: QuestionRow, s: seq<QuestionRow>): (r: seq<QuestionRow>)
    ensures multiset(r) == multiset(s) + multiset{x}
  {
    if s == [] || x.position <= s[0].position then [x] + s
    else
      assert s == [s[0]] + s[1..];
      [s[0]] + InsertByPosition(x, s[1..])
  }

  /** Every row of the insertion is `x` or a row of `s`. */
  lemma InsertMembers(x: QuestionRow, s: seq<QuestionRow>)
    ensures forall y :: y in InsertByPosition(x, s) ==> y == x || y in s
  {
    forall y | y in InsertByPosition(x, s)
      ensures y == x || y in s
    {
      assert y in multiset(InsertByPosition(x, s));
    }
  }

  /** In an ascending list the first row's position bounds every row's. */
  lemma FirstIsLeast(s: seq<QuestionRow>)
    requires Ascending(s) && s != []
    ensures forall y :: y in s ==> s[0].position <= y.position
  {
  }

  /** A row no later than any row of an ascending list can lead it. */
  lemma AscendingCons(h: QuestionRow, rest: seq<QuestionRow>)
    requires Ascending(rest) && forall y :: y in rest ==> h.position <= y.position
    ensures Ascending([h] + rest)
  {
    var r := [h] + rest;
    forall i, j | 0 <= i < j < |r|
      ensures r[i].position <= r[j].position
    {
      if i == 0 {
        assert r[j] == rest[j - 1];
      } else {
        assert r[i] == rest[i - 1] && r[j] == rest[j - 1];
      }
    }
  }

  lemma {:induction false} InsertAscending(x: QuestionRow, s: seq<QuestionRow>)
    requires Ascending(s)
    ensures Ascending(InsertByPosition(x, s))
  {
    if s == [] || x.position <= s[0].position {
      AscendingCons(x, s);
    } else {
      var rest := InsertByPosition(x, s[1..]);
      InsertAscending(x, s[1..]);
      InsertMembers(x, s[1..]);
      FirstIsLeast(s);
      forall y | y in rest
        ensures s[0].position <= y.position
      {
        if y != x {
          assert y in s[1..];
        }
      }
      AscendingCons(s[0], rest);
    }
  }

  /** `ORDER BY position`: a stable insertion sort (rows of equal position
      keep their table order). */
  function ByPosition(s: seq<QuestionRow>): (r: seq<QuestionRow>)
    ensures multiset(r) == multiset(s)
  {
    if s == [] then []
    else
      assert s == [s[0]] + s[1..];
      InsertByPosition(s[0], ByPosition(s[1..]))
  }

  /** The sort orders by position and only reorders. */
  lemma {:induction false} ByPositionAscending(s: seq<QuestionRow>)
    ensures Ascending(ByPosition(s))
    ensures |ByPosition(s)| == |s|
  {
    assert |multiset(ByPosition(s))| == |multiset(s)|;
    if s != [] {
      ByPositionAscending(s[1..]);
      InsertAscending(s[0], ByPosition(s[1..]));
    }
  }

  /** Rows already in position order come back as they are. */
  lemma {:induction false} AscendingFixed(s: seq<QuestionRow>)
    requires Ascending(s)
    ensures ByPosition(s) == s
  {
    if s != [] {
      AscendingFixed(s[1..]);
      assert [s[0]] + s[1..] == s;
    }
  }

  /** One question as the respondent's page receives it: a closed question
      carries its survey id and options, an open one no options. */
  function ToView(t: Tables, q: QuestionRow): (v: QuestionView) {
    if !q.open then
      QuestionView(q.id, Some(q.surveyId), q.title, q.open, q.optional,
        q.minAnswers, q.maxAnswers, q.position, GetClosedAnswers(t, q.id))
    else
      QuestionView(q.id, None, q.title, q.open, q.optional,
        q.minAnswers, q.maxAnswers, q.position, [])
  }

  function Views(t: Tables, rows: seq<QuestionRow>): (vs: seq<QuestionView>)
    ensures |vs| == |rows|
  {
    seq(|rows|, i requires 0 <= i < |rows| => ToView(t, rows[i]))
  }

  lemma ViewsCons(t: Tables, x: QuestionRow, s: seq<QuestionRow>)
    ensures Views(t, [x] + s) == [ToView(t, x)] + Views(t, s)
  {
    assert forall i :: 1 <= i < |s| + 1 ==> ([x] + s)[i] == s[i - 1];
  }

  /** Inserting a row adds its view to the multiset of views. */
  lemma {:induction false} InsertViews(t: Tables, x: QuestionRow, s: seq<QuestionRow>)
    ensures multiset(Views(t, InsertByPosition(x, s))) == multiset(Views(t, s)) + multiset{ToView(t, x)}
  {
    if s == [] || x.position <= s[0].position {
      ViewsCons(t, x, s);
    } else {
      InsertViews(t, x, s[1..]);
      ViewsCons(t, s[0], InsertByPosition(x, s[1..]));
      ViewsCons(t, s[0], s[1..]);
      assert [s[0]] + s[1..] == s;
    }
  }

  /** Ordering by position only reorders the views of the rows. */
  lemma {:induction false} ByPositionViews(t: Tables, s: seq<QuestionRow>)
    ensures multiset(Views(t, ByPosition(s))) == multiset(Views(t, s))
  {
    if s != [] {
      ByPositionViews(t, s[1..]);
      InsertViews(t, s[0], ByPosition(s[1..]));
      ViewsCons(t, s[0], s[1..]);
      assert [s[0]] + s[1..] == s;
    }
  }

  /** `SELECT * FROM surveys WHERE id = ?` read with `db.get`: the first
      matching row, if any. */
  function FindSurvey(rows: seq<SurveyRow>, surveyId: int): (r: Option<SurveyRow>)
    ensures r.None? <==> forall i :: 0 <= i < |rows| ==> rows[i].id != surveyId
    ensures r.Some? ==> r.value in rows && r.value.id == surveyId
  {
    if rows == [] then None
    else if rows[0].id == surveyId then Some(rows[0])
    else
      var r := FindSurvey(rows[1..], surveyId);
      assert forall i :: 1 <= i < |rows| ==> rows[i] == rows[1..][i - 1];
      r
  }

  /** getQuestions: "Survey not found" for an unknown id; otherwise the
      survey's id, title and questions ordered by position, one view per
      stored question of that survey. */
  function GetQuestions(t: Tables, surveyId: int): (r: Result<SurveyView, string>)
    ensures r.Failure? <==> forall i :: 0 <= i < |t.surveys| ==> t.surveys[i].id != surveyId
    ensures r.Failure? ==> r.error == "Survey not found"
    ensures r.Success? ==>
      && r.value.id == surveyId
      && |r.value.questions| == |Filter(t.questions, OfSurvey(surveyId))|
      && forall i, j :: 0 <= i < j < |r.value.questions| ==>
           r.value.questions[i].position <= r.value.questions[j].position
    ensures r.Success? ==>
      exists row :: row in t.surveys && row.id == surveyId && r.value.title == row.title
    ensures r.Success? ==>
      multiset(r.value.questions) == multiset(Views(t, Filter(t.questions, OfSurvey(surveyId))))
  {
    match FindSurvey(t.surveys, surveyId)
    case None => Failure("Survey not found")
    case Some(row) =>
      var found := Filter(t.questions, OfSurvey(surveyId));
      var rows := ByPosition(found);
      ByPositionAscending(found);
      ByPositionViews(t, found);
      assert row in t.surveys && row.id == surveyId;
      Success(SurveyView(row.id, row.title, Views(t, rows)))
  }

  // ----- storing a new survey -----

  function QuestionRowOf(id: int, surveyId: int, q: Question): QuestionRow {
    QuestionRow(id, surveyId, q.title, q.open, q.optional, q.min, q.max, q.position)
  }

  /** The question rows of `qs` when their keys start at `next`. */
  function QuestionRows(next: int, surveyId: int, qs: seq<Question>): (rows: seq<QuestionRow>)
    ensures |rows| == |qs|
  {
    seq(|qs|, i requires 0 <= i < |qs| => QuestionRowOf(next + i, surveyId, qs[i]))
  }

  /** The option rows of `cs` when their keys start at `next`: only the
      title is kept. */
  function OptionRows(next: int, questionId: int, cs: seq<Choice>): (rows: seq<OptionRow>)
    ensures |rows| == |cs|
  {
    seq(|cs|, k requires 0 <= k < |cs| => OptionRow(next + k, questionId, cs[k].title))
  }

  function WithOptions(t: Tables, questionId: int, cs: seq<Choice>): Tables {
    t.(options := t.options + OptionRows(t.nextOption, questionId, cs),
       nextOption := t.nextOption + |cs|)
  }

  /** One question stored: its row, then its options when it is closed. */
  function WithQuestion(t: Tables, surveyId: int, q: Question): Tables {
    var questionId := t.nextQuestion;
    var t1 := t.(questions := t.questions + [QuestionRowOf(questionId, surveyId, q)],
                 nextQuestion := questionId + 1);
    if q.open then t1 else WithOptions(t1, questionId, q.answers)
  }

  function WithQuestions(t: Tables, surveyId: int, qs: seq<Question>): Tables {
    if qs == [] then t else WithQuestion(WithQuestions(t, surveyId, qs[..|qs| - 1]), surveyId, qs[|qs| - 1])
  }

  /** The tables after `createSurvey`: the survey row with no answers yet,
      then each question in turn. */
  function AfterCreateSurvey(t: Tables, title: string, userId: int, qs: seq<Question>): Tables {
    var t1 := t.(surveys := t.surveys + [SurveyRow(t.nextSurvey, title, userId, 0)],
                 nextSurvey := t.nextSurvey + 1);
    WithQuestions(t1, t.nextSurvey, qs)
  }

  /** The body of the loop over the questions: one question row, and for a
      closed question one option row per option. */
  method StoreQuestion(db: Database, surveyId: int, q: Question)
    modifies db
    ensures db.tables == WithQuestion(old(db.tables), surveyId, q)
  {
    var questionId := db.InsertQuestion(surveyId, q.title, q.open, q.optional, q.min, q.max, q.position);
    if !q.open {
      ghost var base := db.tables;
      assert WithOptions(base, questionId, []) == base;
      var k := 0;
      while k < |q.answers|
        invariant 0 <= k <= |q.answers|
        invariant db.tables == WithOptions(base, questionId, q.answers[..k])
      {
        var _ := db.InsertOption(questionId, q.answers[k].title);
        assert q.answers[..k + 1] == q.answers[..k] + [q.answers[k]];
        assert OptionRows(base.nextOption, questionId, q.answers[..k + 1]) ==
          OptionRows(base.nextOption, questionId, q.answers[..k]) +
          [OptionRow(base.nextOption + k, questionId, q.answers[k].title)];
        k := k + 1;
      }
      assert q.answers[..|q.answers|] == q.answers;
    }
  }

  /** createSurvey: stores the survey of `userId` and returns its key. */
  method CreateSurvey(db: Database, title: string, questions: seq<Question>, userId: int)
    returns (surveyId: int)
    modifies db
    ensures surveyId == old(db.tables).nextSurvey
    ensures db.tables == AfterCreateSurvey(old(db.tables), title, userId, questions)
  {
    surveyId := db.InsertSurvey(title, userId, 0);
    ghost var base := db.tables;
    var i := 0;
    while i < |questions|
      invariant 0 <= i <= |questions|
      invariant db.tables == WithQuestions(base, surveyId, questions[..i])
    {
      assert questions[..i + 1][..i] == questions[..i];
      StoreQuestion(db, surveyId, questions[i]);
      i := i + 1;
    }
    assert questions[..|questions|] == questions;
  }

  /** Storing questions advances the question counter by their number. */
  lemma {:induction false} WithQuestionsNext(t: Tables, surveyId: int, qs: seq<Question>)
    ensures WithQuestions(t, surveyId, qs).nextQuestion == t.nextQuestion + |qs|
  {
    if qs != [] {
      WithQuestionsNext(t, surveyId, qs[..|qs| - 1]);
    }
  }

  /** Storing questions appends exactly one question row per question,
      copying its fields, and touches neither the surveys nor the answers. */
  lemma {:induction false} WithQuestionsRows(t: Tables, surveyId: int, qs: seq<Question>)
    ensures var a := WithQuestions(t, surveyId, qs);
      && a.questions == t.questions + QuestionRows(t.nextQuestion, surveyId, qs)
      && a.nextQuestion == t.nextQuestion + |qs|
      && a.surveys == t.surveys && a.nextSurvey == t.nextSurvey
      && a.respondents == t.respondents && a.nextRespondent == t.nextRespondent
      && a.answers == t.answers && a.nextAnswer == t.nextAnswer
      && a.nextOption >= t.nextOption
  {
    if qs != [] {
      var init := qs[..|qs| - 1];
      WithQuestionsRows(t, surveyId, init);
      var mid := WithQuestions(t, surveyId, init);
      assert QuestionRows(t.nextQuestion, surveyId, qs) ==
        QuestionRows(t.nextQuestion, surveyId, init) +
        [QuestionRowOf(mid.nextQuestion, surveyId, qs[|qs| - 1])];
    } else {
      assert QuestionRows(t.nextQuestion, surveyId, qs) == [];
    }
  }

  function OptionTexts(rows: seq<OptionRow>): seq<string> {
    seq(|rows|, k requires 0 <= k < |rows| => rows[k].text)
  }

  function ChoiceTitles(cs: seq<Choice>): seq<string> {
    seq(|cs|, k requires 0 <= k < |cs| => cs[k].title)
  }

  /** Every option row names a question created before it, and its key lies
      below the option counter. */
  predicate OptionsLinked(t: Tables) {
    forall i :: 0 <= i < |t.options| ==>
      t.options[i].questionId < t.nextQuestion && t.options[i].id < t.nextOption
  }

  /** The texts of the options a question should have once stored. */
  function StoredTexts(q: Question): seq<string> {
    if q.open then [] else ChoiceTitles(q.answers)
  }

  /** The question with key `next + i` has the options `qs[i]` should have. */
  predicate OptionsStored(a: Tables, next: int, qs: seq<Question>) {
    forall i :: 0 <= i < |qs| ==> OptionTexts(Filter(a.options, OfQuestion(next + i))) == StoredTexts(qs[i])
  }

  /** The option rows storing `q` adds: none for an open question. */
  function NewOptions(t: Tables, q: Question): seq<OptionRow> {
    if q.open then [] else OptionRows(t.nextOption, t.nextQuestion, q.answers)
  }

  /** Storing one question appends its option rows, each naming the new
      question and holding a fresh key. */
  lemma WithQuestionShape(t: Tables, surveyId: int, q: Question)
    ensures var a := WithQuestion(t, surveyId, q);
      && a.options == t.options + NewOptions(t, q)
      && a.nextQuestion == t.nextQuestion + 1
      && a.nextOption == t.nextOption + |NewOptions(t, q)|
      && (forall k :: 0 <= k < |NewOptions(t, q)| ==>
            NewOptions(t, q)[k].questionId == t.nextQuestion &&
            t.nextOption <= NewOptions(t, q)[k].id < a.nextOption)
      && OptionTexts(NewOptions(t, q)) == StoredTexts(q)
  {
    if !q.open {
      var added := NewOptions(t, q);
      assert forall k :: 0 <= k < |added| ==> OptionTexts(added)[k] == ChoiceTitles(q.answers)[k];
    }
  }

  /** Rows appended for question `qid` do not change another question's options. */
  lemma FilterOthers(rows: seq<OptionRow>, added: seq<OptionRow>, qid: int, x: int)
    requires x != qid && forall k :: 0 <= k < |added| ==> added[k].questionId == qid
    ensures Filter(rows + added, OfQuestion(x)) == Filter(rows, OfQuestion(x))
  {
    FilterAppend(rows, added, OfQuestion(x));
    FilterNone(added, OfQuestion(x));
    assert Filter(rows, OfQuestion(x)) + [] == Filter(rows, OfQuestion(x));
  }

  /** Rows appended for a question no older row names are all its options. */
  lemma FilterOwn(rows: seq<OptionRow>, added: seq<OptionRow>, qid: int)
    requires forall i :: 0 <= i < |rows| ==> rows[i].questionId < qid
    requires forall k :: 0 <= k < |added| ==> added[k].questionId == qid
    ensures Filter(rows + added, OfQuestion(qid)) == added
  {
    FilterAppend(rows, added, OfQuestion(qid));
    FilterNone(rows, OfQuestion(qid));
    FilterAll(added, OfQuestion(qid));
    assert [] + added == added;
  }

  /** Storing one question adds options for its own key only, and exactly
      the ones it should have. */
  lemma WithQuestionOptions(t: Tables, surveyId: int, q: Question, x: int)
    requires OptionsLinked(t)
    ensures OptionsLinked(WithQuestion(t, surveyId, q))
    ensures x != t.nextQuestion ==>
      Filter(WithQuestion(t, surveyId, q).options, OfQuestion(x)) == Filter(t.options, OfQuestion(x))
    ensures OptionTexts(Filter(WithQuestion(t, surveyId, q).options, OfQuestion(t.nextQuestion))) == StoredTexts(q)
  {
    var added := NewOptions(t, q);
    WithQuestionShape(t, surveyId, q);
    if x != t.nextQuestion {
      FilterOthers(t.options, added, t.nextQuestion, x);
    }
    FilterOwn(t.options, added, t.nextQuestion);
  }

  /** Storing one more question keeps the options of the earlier ones and
      adds its own. */
  lemma OptionsStoredStep(mid: Tables, surveyId: int, next: int, init: seq<Question>, last: Question)
    requires OptionsLinked(mid) && mid.nextQuestion == next + |init|
    requires OptionsStored(mid, next, init)
    ensures OptionsLinked(WithQuestion(mid, surveyId, last))
    ensures OptionsStored(WithQuestion(mid, surveyId, last), next, init + [last])
  {
    var qs := init + [last];
    var a := WithQuestion(mid, surveyId, last);
    forall i | 0 <= i < |qs|
      ensures OptionTexts(Filter(a.options, OfQuestion(next + i))) == StoredTexts(qs[i])
    {
      WithQuestionOptions(mid, surveyId, last, next + i);
      if i < |init| {
        assert qs[i] == init[i];
      }
    }
    WithQuestionOptions(mid, surveyId, last, 0);
  }

  /** After storing questions, the options of the `i`th new question are its
      option titles when it is closed and nothing when it is open (the blank
      placeholder option of an open question is never stored). */
  lemma {:induction false} WithQuestionsOptions(t: Tables, surveyId: int, qs: seq<Question>)
    requires OptionsLinked(t)
    ensures OptionsLinked(WithQuestions(t, surveyId, qs))
    ensures OptionsStored(WithQuestions(t, surveyId, qs), t.nextQuestion, qs)
  {
    if qs != [] {
      var init, last := qs[..|qs| - 1], qs[|qs| - 1];
      WithQuestionsOptions(t, surveyId, init);
      WithQuestionsNext(t, surveyId, init);
      OptionsStoredStep(WithQuestions(t, surveyId, init), surveyId, t.nextQuestion, init, last);
      assert init + [last] == qs;
    }
  }

  /** What `createSurvey` does to each table: the survey row with an answer
      count of 0 and the next survey key, one question row per question
      copying its fields, the options of each closed question, and nothing
      else. */
  lemma CreateSurveyTables(t: Tables, title: string, userId: int, qs: seq<Question>)
    ensures var a := AfterCreateSurvey(t, title, userId, qs);
      && a.surveys == t.surveys + [SurveyRow(t.nextSurvey, title, userId, 0)]
      && a.nextSurvey == t.nextSurvey + 1
      && a.questions == t.questions + QuestionRows(t.nextQuestion, t.nextSurvey, qs)
      && a.nextQuestion == t.nextQuestion + |qs|
      && a.respondents == t.respondents && a.nextRespondent == t.nextRespondent
      && a.answers == t.answers && a.nextAnswer == t.nextAnswer
      && (OptionsLinked(t) ==> OptionsLinked(a) && OptionsStored(a, t.nextQuestion, qs))
  {
    var t1 := t.(surveys := t.surveys + [SurveyRow(t.nextSurvey, title, userId, 0)],
                 nextSurvey := t.nextSurvey + 1);
    WithQuestionsRows(t1, t.nextSurvey, qs);
    if OptionsLinked(t) {
      assert OptionsLinked(t1);
      WithQuestionsOptions(t1, t.nextSurvey, qs);
    }
  }

  /** Appending a survey row and its question rows keeps the surveys and
      questions below their counters. */
  lemma LinkedAfter(t: Tables, a: Tables, added: seq<QuestionRow>)
    requires Linked(t) && OptionsLinked(a) && |a.surveys| == |t.surveys| + 1
    requires a.surveys[..|t.surveys|] == t.surveys
    requires a.surveys[|t.surveys|].id == t.nextSurvey && a.nextSurvey == t.nextSurvey + 1
    requires a.questions == t.questions + added
    requires a.nextQuestion == t.nextQuestion + |added|
    requires forall k :: 0 <= k < |added| ==>
      added[k].id == t.nextQuestion + k && added[k].surveyId == t.nextSurvey
    requires a.respondents == t.respondents && a.nextRespondent == t.nextRespondent
    requires a.answers == t.answers && a.nextAnswer == t.nextAnswer
    ensures Linked(a)
  {
    forall i | 0 <= i < |a.surveys|
      ensures a.surveys[i].id < a.nextSurvey
    {
      if i < |t.surveys| {
        assert a.surveys[i] == t.surveys[i];
      }
    }
    forall i | 0 <= i < |a.questions|
      ensures a.questions[i].id < a.nextQuestion && a.questions[i].surveyId < a.nextSurvey
    {
      if i < |t.questions| {
        assert a.questions[i] == t.questions[i];
      } else {
        assert a.questions[i] == added[i - |t.questions|];
      }
    }
  }

  /** Storing a survey keeps every key below its counter and every question
      and option attached to an earlier survey or question. */
  lemma CreateSurveyLinked(t: Tables, title: string, userId: int, qs: seq<Question>)
    requires Linked(t)
    ensures Linked(AfterCreateSurvey(t, title, userId, qs))
  {
    assert OptionsLinked(t);
    CreateSurveyTables(t, title, userId, qs);
    var added := QuestionRows(t.nextQuestion, t.nextSurvey, qs);
    QuestionRowsKeys(t.nextQuestion, t.nextSurvey, qs);
    LinkedAfter(t, AfterCreateSurvey(t, title, userId, qs), added);
  }

  lemma QuestionRowsKeys(next: int, surveyId: int, qs: seq<Question>)
    ensures forall k :: 0 <= k < |qs| ==>
      QuestionRows(next, surveyId, qs)[k].id == next + k &&
      QuestionRows(next, surveyId, qs)[k].surveyId == surveyId
  {
  }

  /** What a respondent's page shows for a question compared with the
      question the editor sent: the same fields, no options for an open
      question and the option texts, in order, for a closed one. */
  predicate Matches(v: QuestionView, q: Question) {
    && v.title == q.title && v.open == q.open && v.optional == q.optional
    && v.minAnswers == q.min && v.maxAnswers == q.max && v.position == q.position
    && (q.open ==> v.answers == [] && v.surveyId == None)
    && (!q.open ==> (|v.answers| == |q.answers| &&
         forall k :: 0 <= k < |q.answers| ==> v.answers[k].text == q.answers[k].title))
  }

  /** Reading back a survey just stored gives its title and, when the
      questions were sent in position order (as the editor keeps them),
      every question in the order sent with its options' texts. */
  lemma CreateThenGetQuestions(t: Tables, title: string, userId: int, qs: seq<Question>)
    requires Linked(t)
    requires forall i, j :: 0 <= i < j < |qs| ==> qs[i].position <= qs[j].position
    ensures var r := GetQuestions(AfterCreateSurvey(t, title, userId, qs), t.nextSurvey);
      && r.Success? && r.value.id == t.nextSurvey && r.value.title == title
      && |r.value.questions| == |qs|
      && forall i :: 0 <= i < |qs| ==> Matches(r.value.questions[i], qs[i])
  {
    assert OptionsLinked(t);
    CreateSurveyTables(t, title, userId, qs);
    ReadNewSurvey(t, AfterCreateSurvey(t, title, userId, qs), title, userId, qs);
  }

  /** The read-back, from what storing did to the tables. */
  lemma ReadNewSurvey(t: Tables, a: Tables, title: string, userId: int, qs: seq<Question>)
    requires Linked(t)
    requires forall i, j :: 0 <= i < j < |qs| ==> qs[i].position <= qs[j].position
    requires a.surveys == t.surveys + [SurveyRow(t.nextSurvey, title, userId, 0)]
    requires a.questions == t.questions + QuestionRows(t.nextQuestion, t.nextSurvey, qs)
    requires OptionsStored(a, t.nextQuestion, qs)
    ensures var r := GetQuestions(a, t.nextSurvey);
      && r.Success? && r.value.id == t.nextSurvey && r.value.title == title
      && |r.value.questions| == |qs|
      && forall i :: 0 <= i < |qs| ==> Matches(r.value.questions[i], qs[i])
  {
    var sid := t.nextSurvey;
    var added := QuestionRows(t.nextQuestion, sid, qs);
    assert forall i :: 0 <= i < |added| ==> added[i] == QuestionRowOf(t.nextQuestion + i, sid, qs[i]);
    StoredQuestionsFound(t.questions, added, sid);
    FindNew(t.surveys, SurveyRow(sid, title, userId, 0));
    ReadBack(a, SurveyRow(sid, title, userId, 0), added);
    QuestionsMatch(a, t.nextQuestion, sid, qs);
  }

  /** Every stored question of the new survey matches the question sent. */
  lemma QuestionsMatch(a: Tables, next: int, surveyId: int, qs: seq<Question>)
    requires OptionsStored(a, next, qs)
    ensures forall i :: 0 <= i < |qs| ==>
      Matches(Views(a, QuestionRows(next, surveyId, qs))[i], qs[i])
  {
    var added := QuestionRows(next, surveyId, qs);
    forall i | 0 <= i < |qs|
      ensures Matches(Views(a, added)[i], qs[i])
    {
      assert added[i] == QuestionRowOf(next + i, surveyId, qs[i]);
      assert OptionTexts(Filter(a.options, OfQuestion(next + i))) == StoredTexts(qs[i]);
      ViewMatches(a, added[i], qs[i]);
    }
  }

  /** A survey found with its questions already in position order reads
      back as those questions, in that order. */
  lemma ReadBack(a: Tables, row: SurveyRow, rows: seq<QuestionRow>)
    requires FindSurvey(a.surveys, row.id) == Some(row)
    requires Filter(a.questions, OfSurvey(row.id)) == rows
    requires forall i, j :: 0 <= i < j < |rows| ==> rows[i].position <= rows[j].position
    ensures GetQuestions(a, row.id) == Success(SurveyView(row.id, row.title, Views(a, rows)))
  {
    AscendingFixed(rows);
  }

  /** The questions of a new survey are the rows just added. */
  lemma StoredQuestionsFound(old_: seq<QuestionRow>, added: seq<QuestionRow>, surveyId: int)
    requires forall i :: 0 <= i < |old_| ==> old_[i].surveyId < surveyId
    requires forall i :: 0 <= i < |added| ==> added[i].surveyId == surveyId
    ensures Filter(old_ + added, OfSurvey(surveyId)) == added
  {
    FilterAppend(old_, added, OfSurvey(surveyId));
    FilterNone(old_, OfSurvey(surveyId));
    FilterAll(added, OfSurvey(surveyId));
  }

  /** The view of a stored question matches the question sent when its
      options were stored as they should be. */
  lemma ViewMatches(a: Tables, row: QuestionRow, q: Question)
    requires row == QuestionRowOf(row.id, row.surveyId, q)
    requires OptionTexts(Filter(a.options, OfQuestion(row.id))) == StoredTexts(q)
    ensures Matches(ToView(a, row), q)
  {
    if !q.open {
      var kept := Filter(a.options, OfQuestion(row.id));
      var v := ToView(a, row);
      assert v.answers == OptionViews(kept);
      forall k | 0 <= k < |q.answers|
        ensures v.answers[k].text == q.answers[k].title
      {
        assert OptionTexts(kept)[k] == StoredTexts(q)[k];
      }
    }
  }

  /** A row with a key above all earlier keys is the one the lookup finds. */
  lemma FindNew(rows: seq<SurveyRow>, row: SurveyRow)
    requires forall i :: 0 <= i < |rows| ==> rows[i].id < row.id
    ensures FindSurvey(rows + [row], row.id) == Some(row)
  {
    if rows != [] {
      assert (rows + [row])[1..] == rows[1..] + [row];
      FindNew(rows[1..], row);
    }
  }
}
