/** The respondent's page of a survey (client/src/pages/Survey.js): the
    answer state an anonymous respondent fills in and sends, and the viewer
    the survey's creator uses to step through the respondents' answers. */
module SurveyPage {
  import opened Wrappers
  import opened Shapes
  import opened Seqs
  import opened Decimal

  // ----- the respondent's answer state -----

  /** One entry per question, in question order, with nothing answered yet. */
  function InitialEntries(qs: seq<QuestionView>): (es: seq<Entry>)
    ensures |es| == |qs|
    ensures forall i :: 0 <= i < |qs| ==>
      && es[i].questionId == qs[i].id
      && es[i].optional == qs[i].optional && es[i].open == qs[i].open
      && es[i].min == qs[i].minAnswers && es[i].max == qs[i].maxAnswers
      && es[i].answer == None
  {
    seq(|qs|, i requires 0 <= i < |qs| =>
      Entry(qs[i].id, qs[i].optional, qs[i].open, qs[i].minAnswers, qs[i].maxAnswers, None))
  }

  /** Every entry for question `questionId` takes `reply`; the others stay. */
  function Answered(es: seq<Entry>, questionId: int, reply: Reply): seq<Entry> {
    seq(|es|, i requires 0 <= i < |es| =>
      if es[i].questionId == questionId then es[i].(answer := Some(reply)) else es[i])
  }

  /** Answering one question touches no other question, and keeps each
      entry's question and its rules. */
  lemma AnsweredEffect(es: seq<Entry>, questionId: int, reply: Reply)
    ensures |Answered(es, questionId, reply)| == |es|
    ensures forall i :: 0 <= i < |es| && es[i].questionId != questionId ==>
      Answered(es, questionId, reply)[i] == es[i]
    ensures forall i :: 0 <= i < |es| && es[i].questionId == questionId ==>
      Answered(es, questionId, reply)[i] == es[i].(answer := Some(reply))
  {
  }

  /** The `length` of an answer: characters of a text, ticked options of a
      closed question. */
  function Count(r: Reply): nat {
    match r
    case Text(t) => |t|
    case Picks(ids) => |ids|
  }

  /** Whether one entry passes the check before sending: an optional
      question always does; a mandatory one needs a truthy answer, and a
      closed one needs between `min` and `max` ticked options, at least one. */
  predicate Accepts(e: Entry) {
    e.optional ||
    (e.answer.Some? && Truthy(e.answer.value) &&
     (e.open || (Count(e.answer.value) != 0 && e.min <= Count(e.answer.value) <= e.max)))
  }

  /** The answers are sent exactly when the name is filled in and every entry
      passes. */
  predicate Sendable(userName: string, es: seq<Entry>) {
    userName != "" && forall i :: 0 <= i < |es| ==> Accepts(es[i])
  }

  /** Before anything is answered, the form can be sent only when every
      question is optional. */
  lemma {:induction false} InitialSendable(userName: string, qs: seq<QuestionView>)
    ensures Sendable(userName, InitialEntries(qs)) <==>
      (userName != "" && forall i :: 0 <= i < |qs| ==> qs[i].optional)
  {
    var es := InitialEntries(qs);
    if userName != "" && !forall i :: 0 <= i < |qs| ==> qs[i].optional {
      var i :| 0 <= i < |qs| && !qs[i].optional;
      assert !Accepts(es[i]);
    }
  }

  /** A mandatory closed question with at least 1 and at most 2 choices:
      none and three are refused, one and two are accepted. */
  lemma ClosedBounds()
    ensures var e := Entry(7, false, false, 1, 2, None);
      && !Accepts(e.(answer := Some(Picks([]))))
      && Accepts(e.(answer := Some(Picks([10]))))
      && Accepts(e.(answer := Some(Picks([10, 11]))))
      && !Accepts(e.(answer := Some(Picks([10, 11, 12]))))
      && !Accepts(e)
  {
  }

  /** An optional question is never checked: whatever its answer, missing,
      empty or with more choices than its maximum, it passes. */
  lemma OptionalUnchecked(e: Entry)
    requires e.optional
    ensures forall a: Option<Reply> :: Accepts(e.(answer := a))
  {
  }

  // ----- the creator's view of one respondent -----

  /** The stored answer rows of respondent `id`. */
  function RowsOf(rows: seq<AnswerView>, id: int): seq<AnswerView> {
    Filter(rows, (a: AnswerView) => a.userId == id)
  }

  /** The selected rows are exactly the rows of that respondent, in their
      stored order. */
  lemma RowsOfMembers(rows: seq<AnswerView>, id: int)
    ensures forall a :: a in RowsOf(rows, id) <==> a in rows && a.userId == id
    ensures forall a :: a in RowsOf(rows, id) ==> a.userId == id
  {
    FilterMembers(rows, (a: AnswerView) => a.userId == id);
  }

  predicate HasId(list: seq<RespondentView>, id: int) {
    exists k :: 0 <= k < |list| && list[k].id == id
  }

  /** No two respondents share an id (ids come from an autoincrement key). */
  predicate UniqueIds(list: seq<RespondentView>) {
    forall j, k :: 0 <= j < k < |list| ==> list[j].id != list[k].id
  }

  /** Index of the first respondent with id `id`: the `indexOf` of the first
      element the filter on `id` finds. */
  function IndexOfId(list: seq<RespondentView>, id: int): (r: nat)
    requires HasId(list, id)
    ensures r < |list| && list[r].id == id
    ensures forall j :: 0 <= j < r ==> list[j].id != id
  {
    if list[0].id == id then 0
    else
      assert HasId(list[1..], id) by {
        var k :| 0 <= k < |list| && list[k].id == id;
        assert list[1..][k - 1].id == id;
      }
      1 + IndexOfId(list[1..], id)
  }

  /** With unique ids, a respondent is found at its own index. */
  lemma IndexOfOwnId(list: seq<RespondentView>, k: int)
    requires UniqueIds(list) && 0 <= k < |list|
    ensures HasId(list, list[k].id)
    ensures IndexOfId(list, list[k].id) == k
  {
    assert HasId(list, list[k].id);
  }

  /** The name shown for respondent `id`. */
  function NameOf(list: seq<RespondentView>, id: int): (name: string)
    requires HasId(list, id)
    ensures exists k :: 0 <= k < |list| && list[k].id == id && list[k].name == name
  {
    list[IndexOfId(list, id)].name
  }

  /** The index after `i`, going round from the last to the first. */
  function NextIndex(i: int, n: int): (r: int)
    requires 0 <= i < n
    ensures 0 <= r < n
    ensures r == (i + 1) % n
  {
    if i == n - 1 then 0 else i + 1
  }

  /** The index before `i`, going round from the first to the last. */
  function PrevIndex(i: int, n: int): (r: int)
    requires 0 <= i < n
    ensures 0 <= r < n
    ensures r == (i - 1 + n) % n
  {
    if i == 0 then n - 1 else i - 1
  }

  /** Forward and back undo each other, and with a single respondent both
      stay where they are. */
  lemma IndexRoundTrip(i: int, n: int)
    requires 0 <= i < n
    ensures PrevIndex(NextIndex(i, n), n) == i
    ensures NextIndex(PrevIndex(i, n), n) == i
    ensures n == 1 ==> NextIndex(i, n) == i && PrevIndex(i, n) == i
  {
  }

  /** The respondent the right arrow selects after `id`. */
  function ForwardId(list: seq<RespondentView>, id: int): int
    requires HasId(list, id)
  {
    list[NextIndex(IndexOfId(list, id), |list|)].id
  }

  /** The respondent the left arrow selects before `id`. */
  function BackId(list: seq<RespondentView>, id: int): int
    requires HasId(list, id)
  {
    list[PrevIndex(IndexOfId(list, id), |list|)].id
  }

  /** With unique ids the arrows move one place round the list: back after
      forward returns to the same respondent and so does forward after back. */
  lemma ArrowsRoundTrip(list: seq<RespondentView>, id: int)
    requires UniqueIds(list) && HasId(list, id)
    ensures HasId(list, ForwardId(list, id)) && HasId(list, BackId(list, id))
    ensures IndexOfId(list, ForwardId(list, id)) == NextIndex(IndexOfId(list, id), |list|)
    ensures IndexOfId(list, BackId(list, id)) == PrevIndex(IndexOfId(list, id), |list|)
    ensures BackId(list, ForwardId(list, id)) == id
    ensures ForwardId(list, BackId(list, id)) == id
  {
    var i := IndexOfId(list, id);
    var n := |list|;
    IndexOfOwnId(list, NextIndex(i, n));
    IndexOfOwnId(list, PrevIndex(i, n));
    IndexRoundTrip(i, n);
  }

  /** With a single respondent the arrows keep the selection. */
  lemma SingleRespondent(list: seq<RespondentView>, id: int)
    requires |list| == 1 && HasId(list, id)
    ensures ForwardId(list, id) == id && BackId(list, id) == id
  {
  }

  // ----- what the question components show -----

  /** The text an open question shows for the selected respondent: the
      first of their rows for that question, or nothing. */
  function ShownText(selected: seq<AnswerView>, questionId: int): (t: string)
    ensures (forall k :: 0 <= k < |selected| ==> selected[k].questionId != questionId) ==> t == ""
    ensures (exists k :: 0 <= k < |selected| && selected[k].questionId == questionId) ==>
      exists k :: (0 <= k < |selected| && selected[k].questionId == questionId && t == selected[k].answer &&
        forall j :: 0 <= j < k ==> selected[j].questionId != questionId)
  {
    if selected == [] then ""
    else if selected[0].questionId == questionId then selected[0].answer
    else
      var t := ShownText(selected[1..], questionId);
      assert forall k :: 1 <= k < |selected| ==> selected[1..][k - 1] == selected[k];
      t
  }

  /** An option as a closed question shows it. */
  datatype Box = Box(id: int, text: string, checked: bool)

  /** Whether a selected row for the question names option `id`. */
  predicate Ticked(selected: seq<AnswerView>, questionId: int, id: int) {
    exists a :: a in selected && a.questionId == questionId && ParseInt(a.answer) == Some(id)
  }

  /** Whether one of `rows` holds `id` as its answer, read as an integer. */
  predicate Names(rows: seq<AnswerView>, id: int) {
    exists a :: a in rows && ParseInt(a.answer) == Some(id)
  }

  lemma NamesAppend(rows: seq<AnswerView>, row: AnswerView, id: int)
    ensures Names(rows + [row], id) <==> Names(rows, id) || ParseInt(row.answer) == Some(id)
  {
    if Names(rows + [row], id) {
      var a :| a in rows + [row] && ParseInt(a.answer) == Some(id);
      assert a in rows || a == row;
    }
    if Names(rows, id) {
      var a :| a in rows && ParseInt(a.answer) == Some(id);
      assert a in rows + [row];
    }
    assert row in rows + [row];
  }

  /** The inner loop of the reconstruction: every option whose id equals
      `value` is checked in place; the others stay as they were. */
  method CheckMatching(toCheck: array<Box>, value: Option<int>)
    modifies toCheck
    ensures forall l :: 0 <= l < toCheck.Length ==>
      toCheck[l] == if value == Some(old(toCheck[l]).id) then old(toCheck[l]).(checked := true) else old(toCheck[l])
  {
    var j := 0;
    while j < toCheck.Length
      invariant 0 <= j <= toCheck.Length
      invariant forall l :: 0 <= l < j ==>
        toCheck[l] == if value == Some(old(toCheck[l]).id) then old(toCheck[l]).(checked := true) else old(toCheck[l])
      invariant forall l :: j <= l < toCheck.Length ==> toCheck[l] == old(toCheck[l])
    {
      if value == Some(toCheck[j].id) {
        toCheck[j] := toCheck[j].(checked := true);
      }
      j := j + 1;
    }
  }

  /** The checked-option reconstruction of the closed question: every option
      starts unchecked, then each of the respondent's rows for the question
      checks the options whose id equals the row's answer read as an integer. */
  method CheckedBoxes(options: seq<OptionView>, selected: seq<AnswerView>, questionId: int)
    returns (boxes: seq<Box>)
    ensures |boxes| == |options|
    ensures forall j :: 0 <= j < |options| ==>
      boxes[j].id == options[j].id && boxes[j].text == options[j].text
    ensures forall j :: 0 <= j < |options| ==>
      (boxes[j].checked <==> Ticked(selected, questionId, options[j].id))
  {
    var toCheck := new Box[|options|](j requires 0 <= j < |options| =>
      Box(options[j].id, options[j].text, false));
    var mine := Filter(selected, (a: AnswerView) => a.questionId == questionId);
    if |selected| > 0 {
      var i := 0;
      while i < |mine|
        invariant 0 <= i <= |mine|
        invariant forall j :: 0 <= j < toCheck.Length ==>
          toCheck[j].id == options[j].id && toCheck[j].text == options[j].text
        invariant forall j :: 0 <= j < toCheck.Length ==>
          (toCheck[j].checked <==> Names(mine[..i], options[j].id))
      {
        assert mine[..i + 1] == mine[..i] + [mine[i]];
        forall j | 0 <= j < toCheck.Length {
          NamesAppend(mine[..i], mine[i], options[j].id);
        }
        CheckMatching(toCheck, ParseInt(mine[i].answer));
        i := i + 1;
      }
      assert mine[..|mine|] == mine;
    }
    FilterMembers(selected, (a: AnswerView) => a.questionId == questionId);
    forall j | 0 <= j < |options|
      ensures toCheck[j].checked <==> Ticked(selected, questionId, options[j].id)
    {
      if Ticked(selected, questionId, options[j].id) {
        var a :| a in selected && a.questionId == questionId && ParseInt(a.answer) == Some(options[j].id);
        assert a in mine;
      }
    }
    boxes := toCheck[..];
  }

  // ----- the page -----

  /** The message above the form. */
  datatype FormError = NoError | NameMissing | Incomplete

  class SurveyPage {
    var userName: string
    var userId: int
    var answers: seq<Entry>
    var notice: FormError
    var submitted: bool
    var disabled: bool
    var selected: seq<AnswerView>

    constructor ()
      ensures userName == "" && userId == -1 && answers == [] && notice == NoError
      ensures !submitted && !disabled && selected == []
    {
      userName, userId, answers := "", -1, [];
      notice, submitted, disabled, selected := NoError, false, false, [];
    }

    /** The effect run when the survey arrives: one fresh entry per question
        once the questions are there; the form is read-only for a creator
        who is logged in. */
    method LoadSurvey(questions: Option<seq<QuestionView>>, loggedIn: bool)
      modifies this`answers, this`disabled
      ensures answers == if questions.Some? then InitialEntries(questions.value) else old(answers)
      ensures disabled == loggedIn
    {
      if questions.Some? {
        answers := InitialEntries(questions.value);
      }
      disabled := loggedIn;
    }

    method SetUserName(value: string)
      modifies this`userName
      ensures userName == value
    {
      userName := value;
    }

    /** updateAnswer: the entries of question `questionId` take `reply`. */
    method UpdateAnswer(questionId: int, reply: Reply)
      modifies this`answers
      ensures answers == Answered(old(answers), questionId, reply)
    {
      answers := Answered(answers, questionId, reply);
    }

    /** validateResult: the answers are sent exactly when the name is filled
        in and every entry passes; the message left is the last one set. */
    method ValidateResult() returns (send: bool)
      modifies this`notice, this`submitted
      ensures send <==> Sendable(userName, answers)
      ensures submitted == (old(submitted) || send)
      ensures notice == (if userName == "" then NameMissing else if send then NoError else Incomplete)
    {
      var valid := true;
      var i := 0;
      while i < |answers|
        invariant 0 <= i <= |answers|
        invariant valid <==> forall k :: 0 <= k < i ==> Accepts(answers[k])
        invariant !valid ==> notice == Incomplete
        invariant submitted == old(submitted)
      {
        var e := answers[i];
        if !e.optional {
          if e.answer.Some? && Truthy(e.answer.value) {
            var r := e.answer.value;
            if e.open {
              if r.Text? && r.text == "" {
                valid := false;
                notice := Incomplete;
              }
            } else {
              if Count(r) == 0 {
                valid := false;
                notice := Incomplete;
              } else if Count(r) < e.min || Count(r) > e.max {
                valid := false;
                notice := Incomplete;
              }
            }
          } else {
            valid := false;
            notice := Incomplete;
          }
        }
        i := i + 1;
      }
      if userName == "" {
        valid := false;
        notice := NameMissing;
      }
      if valid {
        notice := NoError;
        submitted := true;
      }
      send := valid;
    }

    /** The effect run when the answer data arrives: the selection is
        cleared, then the first respondent, if any, is selected with their
        rows. No data (an anonymous respondent) only clears it. */
    method ShowAnswers(data: Option<AnswerSet>)
      modifies this`userName, this`userId, this`selected
      ensures data.Some? && |data.value.usernameList| > 0 ==>
        var first := data.value.usernameList[0];
        && userName == first.name && userId == first.id
        && selected == RowsOf(data.value.answers, first.id)
      ensures !(data.Some? && |data.value.usernameList| > 0) ==>
        userName == "" && userId == -1 && selected == []
    {
      userName, userId, selected := "", -1, [];
      if data.Some? && |data.value.usernameList| > 0 {
        var first := data.value.usernameList[0];
        userName := first.name;
        selected := RowsOf(data.value.answers, first.id);
        userId := first.id;
      }
    }

    /** goBack: the respondent before the selected one, the last one before
        the first. */
    method GoBack(data: AnswerSet)
      requires HasId(data.usernameList, userId)
      modifies this`userName, this`userId, this`selected
      ensures userId == BackId(data.usernameList, old(userId))
      ensures HasId(data.usernameList, userId)
      ensures selected == RowsOf(data.answers, userId)
      ensures userName == NameOf(data.usernameList, userId)
    {
      var list := data.usernameList;
      var position := IndexOfId(list, userId);
      if position == 0 {
        position := |list|;
      }
      var newId := list[position - 1].id;
      assert HasId(list, newId);
      selected := RowsOf(data.answers, newId);
      userName := NameOf(list, newId);
      userId := newId;
    }

    /** goForward: the respondent after the selected one, the first one after
        the last. */
    method GoForward(data: AnswerSet)
      requires HasId(data.usernameList, userId)
      modifies this`userName, this`userId, this`selected
      ensures userId == ForwardId(data.usernameList, old(userId))
      ensures HasId(data.usernameList, userId)
      ensures selected == RowsOf(data.answers, userId)
      ensures userName == NameOf(data.usernameList, userId)
    {
      var list := data.usernameList;
      var position: int := IndexOfId(list, userId);
      if position == |list| - 1 {
        position := -1;
      }
      var newId := list[position + 1].id;
      assert HasId(list, newId);
      selected := RowsOf(data.answers, newId);
      userName := NameOf(list, newId);
      userId := newId;
    }
  }
}
