/** The survey editor of client/src/pages/CreateSurvey.js: the list of questions
    being written, the operations that reshape it, the per-question diagnostic
    and the check that runs before a survey is published.

    Questions are kept at positions 0..n-1, each at its own index; option
    positions inside a question are pairwise distinct but may have gaps. */
module Editor {
  import opened Shapes
  import opened Seqs

  function Positions(qs: seq<Question>): seq<int> {
    seq(|qs|, i requires 0 <= i < |qs| => qs[i].position)
  }

  function ChoicePositions(cs: seq<Choice>): seq<int> {
    seq(|cs|, i requires 0 <= i < |cs| => cs[i].position)
  }

  /** Every question sits at the position equal to its index. */
  predicate Dense(qs: seq<Question>) {
    forall i :: 0 <= i < |qs| ==> qs[i].position == i
  }

  /** No two options of one question share a position. */
  predicate Distinct(cs: seq<Choice>) {
    forall i, j :: 0 <= i < j < |cs| ==> cs[i].position != cs[j].position
  }

  /** The invariant every editing operation keeps. */
  predicate Tidy(qs: seq<Question>) {
    Dense(qs) && forall i :: 0 <= i < |qs| ==> Distinct(qs[i].answers)
  }

  /** The running maximum the editor computes, starting from -1. */
  function MaxOf(ps: seq<int>): int {
    if ps == [] then -1
    else
      var m := MaxOf(ps[..|ps| - 1]);
      if ps[|ps| - 1] > m then ps[|ps| - 1] else m
  }

  lemma {:induction false} MaxOfBounds(ps: seq<int>)
    ensures MaxOf(ps) >= -1
    ensures forall i :: 0 <= i < |ps| ==> ps[i] <= MaxOf(ps)
    ensures MaxOf(ps) == -1 || exists i :: 0 <= i < |ps| && ps[i] == MaxOf(ps)
  {
    if ps != [] {
      var init := ps[..|ps| - 1];
      MaxOfBounds(init);
      assert forall i :: 0 <= i < |init| ==> init[i] == ps[i];
      if MaxOf(ps) != -1 && MaxOf(ps) != ps[|ps| - 1] {
        var i :| 0 <= i < |init| && init[i] == MaxOf(init);
        assert ps[i] == MaxOf(ps);
      }
    }
  }

  /** The `forEach` that looks for the largest position in use (-1 when none). */
  method LastPosition(ps: seq<int>) returns (m: int)
    ensures m == MaxOf(ps)
  {
    m := -1;
    var i := 0;
    while i < |ps|
      invariant 0 <= i <= |ps|
      invariant m == MaxOf(ps[..i])
    {
      assert ps[..i + 1][..i] == ps[..i];
      if ps[i] > m {
        m := ps[i];
      }
      i := i + 1;
    }
    assert ps[..|ps|] == ps;
  }

  /** On a dense list the largest position is the last index, so a new question
      lands at position n. */
  lemma DenseTop(qs: seq<Question>)
    requires Dense(qs)
    ensures MaxOf(Positions(qs)) == |qs| - 1
  {
    MaxOfBounds(Positions(qs));
    if qs != [] {
      assert Positions(qs)[|qs| - 1] == |qs| - 1;
    }
  }

  /** A fresh question: open, optional, at most one answer, one blank option. */
  function BlankQuestion(position: int): Question {
    Question("", true, true, 0, 1, position, [Choice("", 0)])
  }

  // ----- deleting, moving and replacing questions -----

  /** deleteQuestion: drop the question at position `p`, then every question
      at or above `p` moves one position down. */
  function Deleted(qs: seq<Question>, p: int): seq<Question> {
    var kept := Filter(qs, (q: Question) => q.position != p);
    seq(|kept|, i requires 0 <= i < |kept| =>
      if kept[i].position < p then kept[i] else kept[i].(position := kept[i].position - 1))
  }

  /** Deleting from a dense list removes exactly that question, keeps the
      others in their order, and leaves the list dense again. */
  lemma DeletedShape(qs: seq<Question>, p: int)
    requires Dense(qs) && 0 <= p < |qs|
    ensures |Deleted(qs, p)| == |qs| - 1
    ensures Dense(Deleted(qs, p))
    ensures forall i :: 0 <= i < p ==> Deleted(qs, p)[i] == qs[i]
    ensures forall i :: p <= i < |qs| - 1 ==> Deleted(qs, p)[i] == qs[i + 1].(position := i)
  {
    var f := (q: Question) => q.position != p;
    FilterDropOne(qs, p, f);
  }

  /** The questions at indices `i` and `i + 1` trade places, each taking its
      new index as its position. */
  function Swapped(qs: seq<Question>, i: int): seq<Question>
    requires 0 <= i < |qs| - 1
  {
    qs[i := qs[i + 1].(position := i)][i + 1 := qs[i].(position := i + 1)]
  }

  /** Swapping keeps the invariant, and swapping the same pair twice (up, then
      down) gives the list back. */
  lemma SwappedTidy(qs: seq<Question>, i: int)
    requires Tidy(qs) && 0 <= i < |qs| - 1
    ensures Tidy(Swapped(qs, i))
    ensures Swapped(Swapped(qs, i), i) == qs
  {
    var r := Swapped(qs, i);
    assert Swapped(r, i) == qs by {
      assert forall k :: 0 <= k < |qs| ==> Swapped(r, i)[k] == qs[k];
    }
  }

  /** updateQuestion: every question at `position` becomes `newData`. */
  function Replaced(qs: seq<Question>, position: int, newData: Question): seq<Question> {
    seq(|qs|, i requires 0 <= i < |qs| => if qs[i].position == position then newData else qs[i])
  }

  /** On a dense list only the question at that index changes. */
  lemma ReplacedAt(qs: seq<Question>, p: int, newData: Question)
    requires Dense(qs) && 0 <= p < |qs|
    ensures Replaced(qs, p, newData) == qs[p := newData]
  {
  }

  // ----- options of a question -----

  /** addAnswer: a blank option one above the largest option position in use. */
  function WithBlankChoice(cs: seq<Choice>): seq<Choice> {
    cs + [Choice("", MaxOf(ChoicePositions(cs)) + 1)]
  }

  lemma BlankChoiceIsNew(cs: seq<Choice>)
    ensures forall i :: 0 <= i < |cs| ==> cs[i].position < WithBlankChoice(cs)[|cs|].position
    ensures Distinct(cs) ==> Distinct(WithBlankChoice(cs))
  {
    MaxOfBounds(ChoicePositions(cs));
    assert forall i :: 0 <= i < |cs| ==> ChoicePositions(cs)[i] == cs[i].position;
  }

  /** updateAnswer: the option at `ap` gets the new text. */
  function Retitled(cs: seq<Choice>, ap: int, title: string): seq<Choice> {
    seq(|cs|, i requires 0 <= i < |cs| => if cs[i].position == ap then cs[i].(title := title) else cs[i])
  }

  /** removeAnswer: the options not at `ap`, not renumbered. */
  function WithoutChoice(cs: seq<Choice>, ap: int): seq<Choice> {
    Filter(cs, (c: Choice) => c.position != ap)
  }

  lemma {:induction false} WithoutChoiceDistinct(cs: seq<Choice>, ap: int)
    requires Distinct(cs)
    ensures Distinct(WithoutChoice(cs, ap))
  {
    if cs != [] {
      var f := (c: Choice) => c.position != ap;
      var rest := WithoutChoice(cs[1..], ap);
      WithoutChoiceDistinct(cs[1..], ap);
      FilterMembers(cs[1..], f);
      assert forall x :: x in rest ==> x in cs[1..];
      assert forall x :: x in cs[1..] ==> x.position != cs[0].position;
      assert Filter(cs, f) == (if f(cs[0]) then [cs[0]] else []) + Filter(cs[1..], f);
    }
  }

  /** When the positions are distinct, removing the option at `ap` removes that
      one option only and keeps the rest in order. */
  lemma WithoutChoiceExactly(cs: seq<Choice>, ap: int, k: int)
    requires Distinct(cs) && 0 <= k < |cs| && cs[k].position == ap
    ensures WithoutChoice(cs, ap) == cs[..k] + cs[k + 1..]
  {
    FilterDropOne(cs, k, (c: Choice) => c.position != ap);
  }

  // ----- the edits a question makes to itself -----

  datatype Field = Title(title: string) | Open(open: bool) | Optional(optional: bool)

  /** updateField of the question component: a field is set verbatim, except
      that turning a question open also resets it to at most one answer with a
      single blank option in the same update. */
  function UpdateField(q: Question, f: Field): (r: Question)
    ensures r.position == q.position
    ensures f == Open(true) ==>
      r.open && r.min == 0 && r.max == 1 && r.answers == [Choice("", 0)] &&
      r.optional == q.optional && r.title == q.title
    ensures f != Open(true) ==> r.min == q.min && r.max == q.max && r.answers == q.answers
    ensures f.Title? ==> r.title == f.title
    ensures f.Optional? ==> r.optional == f.optional
    ensures f.Open? ==> r.open == f.open
    ensures !f.Title? ==> r.title == q.title
    ensures !f.Optional? ==> r.optional == q.optional
    ensures !f.Open? ==> r.open == q.open
    ensures Distinct(q.answers) ==> Distinct(r.answers)
  {
    match f
    case Title(t) => q.(title := t)
    case Open(o) =>
      if o then q.(open := true, min := 0, max := 1, answers := [Choice("", 0)])
      else q.(open := false)
    case Optional(o) => q.(optional := o)
  }

  /** Once it has a title, a question just turned open passes every rule. */
  lemma OpenedIsWellFormed(q: Question)
    requires q.title != ""
    ensures WellFormed(UpdateField(q, Open(true)))
  {
  }

  /** updateMinMax as written: the question becomes optional exactly when the
      minimum arrived as the text "0" (`minIsZeroText`); a minimum of 0 that
      is still the stored number makes it mandatory. */
  function UpdateMinMax(q: Question, min: int, max: int, minIsZeroText: bool): (r: Question)
    requires minIsZeroText ==> min == 0
    ensures r.optional == minIsZeroText && r.min == min && r.max == max
    ensures r.(optional := q.optional, min := q.min, max := q.max) == q
  {
    q.(optional := minIsZeroText, min := min, max := max)
  }

  /** A closed question whose minimum was never typed keeps the number 0;
      editing only its maximum then makes it mandatory with a minimum of 0. */
  lemma MandatoryWithZeroMin()
    ensures var q := UpdateField(BlankQuestion(0), Open(false));
      var r := UpdateMinMax(q, q.min, 2, false);
      r.min == 0 && !r.optional
  {
  }

  /** The rule the page states ("if the minimum number is 0, the question will
      be optional"): optionality follows the minimum, whatever form it had. */
  function UpdateMinMaxIntended(q: Question, min: int, max: int): (r: Question)
    ensures r.optional <==> r.min == 0
    ensures r.min == min && r.max == max
    ensures r.(optional := q.optional, min := q.min, max := q.max) == q
  {
    q.(optional := min == 0, min := min, max := max)
  }

  // ----- the rules checked before publishing -----

  /** The structural rules a question must meet before the survey is published. */
  predicate WellFormed(q: Question) {
    && q.title != ""
    && (!q.open ==> |q.answers| >= 1)
    && 0 <= q.min <= q.max <= |q.answers|
    && q.min < |q.answers|
    && q.max >= 1
    && (!q.open ==> forall c :: c in q.answers ==> c.title != "")
  }

  /** The message a question shows under itself. */
  datatype Diagnosis =
    | Clear              // no message
    | TitleMissing       // "Please insert a text for the question"
    | NoOptions          // "Please insert at least one answer"
    | MaxAboveCount      // maximum greater than the number of answers
    | MinAboveMax        // minimum greater than maximum
    | MinNotBelowCount   // minimum not below the number of answers
    | MinNegative        // minimum below 0
    | MaxBelowOne        // maximum below 1
    | BlankOption        // "Please insert a text for all the answers"

  /** Whether `q` breaks the rule that diagnosis `d` names. */
  predicate Breaks(q: Question, d: Diagnosis) {
    match d
    case Clear => false
    case TitleMissing => q.title == ""
    case NoOptions => !q.open && |q.answers| == 0
    case MaxAboveCount => q.max > |q.answers|
    case MinAboveMax => q.min > q.max
    case MinNotBelowCount => |q.answers| <= q.min
    case MinNegative => q.min < 0
    case MaxBelowOne => q.max < 1
    case BlankOption => !q.open && exists c :: c in q.answers && c.title == ""
  }

  lemma WellFormedBreaksNothing(q: Question)
    ensures WellFormed(q) <==> forall d :: !Breaks(q, d)
  {
    if !WellFormed(q) {
      if q.title == "" { assert Breaks(q, TitleMissing); }
      else if !q.open && |q.answers| == 0 { assert Breaks(q, NoOptions); }
      else if q.max > |q.answers| { assert Breaks(q, MaxAboveCount); }
      else if q.min > q.max { assert Breaks(q, MinAboveMax); }
      else if |q.answers| <= q.min { assert Breaks(q, MinNotBelowCount); }
      else if q.min < 0 { assert Breaks(q, MinNegative); }
      else if q.max < 1 { assert Breaks(q, MaxBelowOne); }
      else { assert Breaks(q, BlankOption); }
    }
  }

  /** The test of the diagnostic chain that reports `d`, with its guards as
      the component writes them: the minimum-above-maximum test is skipped
      when the maximum is not positive. */
  predicate Flags(q: Question, d: Diagnosis) {
    match d
    case Clear => false
    case TitleMissing => q.title == ""
    case NoOptions => !q.open && |q.answers| == 0
    case MaxAboveCount => q.max > |q.answers|
    case MinAboveMax => q.min >= 0 && q.max > 0 && q.min > q.max
    case MinNotBelowCount => q.min >= 0 && |q.answers| <= q.min
    case MinNegative => q.min < 0
    case MaxBelowOne => q.max < 1
    case BlankOption => !q.open && |q.answers| > 0 && exists c :: c in q.answers && c.title == ""
  }

  /** Where each test sits in the chain; `Clear` comes after all of them. */
  function Rank(d: Diagnosis): nat {
    match d
    case TitleMissing => 0
    case NoOptions => 1
    case MaxAboveCount => 2
    case MinAboveMax => 3
    case MinNotBelowCount => 4
    case MinNegative => 5
    case MaxBelowOne => 6
    case BlankOption => 7
    case Clear => 8
  }

  /** The diagnostic effect of the question component: the first check in its
      chain that fails. The message names a rule the question really breaks,
      and there is none exactly when the question is well formed. */
  function Diagnose(q: Question): (d: Diagnosis)
    ensures d == Clear <==> WellFormed(q)
    ensures d != Clear ==> Breaks(q, d) && Flags(q, d)
    ensures forall e :: Rank(e) < Rank(d) ==> !Flags(q, e)
    ensures d == TitleMissing <==> q.title == ""
  {
    if q.title == "" then TitleMissing
    else if !q.open && |q.answers| == 0 then NoOptions
    else if q.max > |q.answers| then MaxAboveCount
    else if q.min >= 0 && q.max > 0 && q.min > q.max then MinAboveMax
    else if q.min >= 0 && |q.answers| <= q.min then MinNotBelowCount
    else if q.min < 0 then MinNegative
    else if q.max < 1 then MaxBelowOne
    else if !q.open && |q.answers| > 0 && exists c :: c in q.answers && c.title == "" then BlankOption
    else Clear
  }

  /** The guard on the minimum-above-maximum test lets a question with a
      zero maximum skip it: the message names the later maximum rule although
      the minimum also exceeds the maximum. Both messages name broken rules. */
  lemma DiagnoseSkipsMinAboveMax()
    ensures var q := Question("q", false, false, 3, 0, 0,
      [Choice("a", 0), Choice("b", 1), Choice("c", 2), Choice("d", 3), Choice("e", 4)]);
      Diagnose(q) == MaxBelowOne && Breaks(q, MinAboveMax) && !Flags(q, MinAboveMax)
  {
  }

  /** The message above the form. */
  datatype Notice =
    | NoNotice
    | SurveyTitleMissing     // "Please insert a title for the survey"
    | NoQuestions            // "Please insert at least one question"
    | QuestionTitleMissing   // "All the questions need to have a title"
    | FixQuestions           // "Please fix the error in the questions below"

  /** Index of the last question that breaks a rule, -1 when there is none. */
  function LastFlawed(qs: seq<Question>): (r: int)
    ensures -1 <= r < |qs|
    ensures r == -1 <==> forall i :: 0 <= i < |qs| ==> WellFormed(qs[i])
    ensures r >= 0 ==> !WellFormed(qs[r]) && forall i :: r < i < |qs| ==> WellFormed(qs[i])
  {
    if qs == [] then -1
    else if !WellFormed(qs[|qs| - 1]) then |qs| - 1
    else LastFlawed(qs[..|qs| - 1])
  }

  /** One more question checked: it becomes the last flawed one exactly when
      it breaks a rule. */
  lemma LastFlawedSnoc(qs: seq<Question>, i: int)
    requires 0 <= i < |qs|
    ensures LastFlawed(qs[..i + 1]) == if WellFormed(qs[i]) then LastFlawed(qs[..i]) else i
  {
    assert qs[..i + 1][..i] == qs[..i];
  }

  /** The notice a failing question leaves behind. */
  function FlawNotice(q: Question): Notice {
    if q.title == "" then QuestionTitleMissing else FixQuestions
  }

  /** The per-question part of validateResult: the checks run in the
      source's order, and the notice the first failing one sets. A closed
      question's options are checked one by one, each blank one setting the
      notice again. */
  method CheckQuestion(q: Question) returns (ok: bool, flaw: Notice)
    ensures ok <==> WellFormed(q)
    ensures !ok ==> flaw == FlawNotice(q)
  {
    ok, flaw := true, NoNotice;
    if q.title == "" {
      ok, flaw := false, QuestionTitleMissing;
    } else if !q.open && |q.answers| == 0 {
      ok, flaw := false, FixQuestions;
    } else if q.max > |q.answers| {
      ok, flaw := false, FixQuestions;
    } else if q.min >= 0 && q.min > q.max {
      ok, flaw := false, FixQuestions;
    } else if q.min >= 0 && |q.answers| <= q.min {
      ok, flaw := false, FixQuestions;
    } else if q.min < 0 {
      ok, flaw := false, FixQuestions;
    } else if q.max < 1 {
      ok, flaw := false, FixQuestions;
    } else if !q.open && |q.answers| > 0 {
      var j := 0;
      while j < |q.answers|
        invariant 0 <= j <= |q.answers|
        invariant ok <==> forall m :: 0 <= m < j ==> q.answers[m].title != ""
        invariant !ok ==> flaw == FixQuestions
      {
        if q.answers[j].title == "" {
          ok, flaw := false, FixQuestions;
        }
        j := j + 1;
      }
    }
  }

  datatype Direction = Up | Down | Elsewhere

  /** The state of the survey editor page. */
  class SurveyDraft {
    var title: string
    var questions: seq<Question>
    var notice: Notice
    var sent: bool

    predicate Valid()
      reads this
    {
      Tidy(questions)
    }

    constructor ()
      ensures Valid()
      ensures title == "" && questions == [BlankQuestion(0)] && notice == NoNotice && !sent
    {
      title := "";
      questions := [BlankQuestion(0)];
      notice := NoNotice;
      sent := false;
    }

    method UpdateSurveyTitle(value: string)
      modifies this`title, this`notice
      ensures title == value
      ensures notice == if value == "" then SurveyTitleMissing else NoNotice
    {
      title := value;
      if value != "" {
        notice := NoNotice;
      } else {
        notice := SurveyTitleMissing;
      }
    }

    /** addQuestion: one blank question at the largest position plus one. */
    method AddQuestion()
      requires Valid()
      modifies this`questions
      ensures Valid()
      ensures questions == old(questions) + [BlankQuestion(MaxOf(Positions(old(questions))) + 1)]
      ensures questions[|old(questions)|].position == |old(questions)|
    {
      var top := LastPosition(Positions(questions));
      DenseTop(questions);
      questions := questions + [BlankQuestion(top + 1)];
    }

    /** deleteQuestion of the question at position `p`. */
    method DeleteQuestion(p: int)
      requires Valid() && 0 <= p < |questions|
      modifies this`questions
      ensures Valid()
      ensures questions == Deleted(old(questions), p)
      ensures |questions| == |old(questions)| - 1
      ensures forall i :: 0 <= i < p ==> questions[i] == old(questions)[i]
      ensures forall i :: p <= i < |questions| ==> questions[i] == old(questions)[i + 1].(position := i)
    {
      DeletedShape(questions, p);
      questions := Deleted(questions, p);
    }

    /** moveItem: the question at `p` trades places with its neighbour above or
      below; the page offers "up" only below the first question and "down"
      only above the last one. Any other direction changes nothing. */
    method MoveItem(p: int, dir: Direction)
      requires Valid()
      requires dir == Up ==> 0 < p < |questions|
      requires dir == Down ==> 0 <= p < |questions| - 1
      modifies this`questions
      ensures Valid()
      ensures dir == Up ==> questions == Swapped(old(questions), p - 1)
      ensures dir == Down ==> questions == Swapped(old(questions), p)
      ensures dir == Elsewhere ==> questions == old(questions)
    {
      if dir == Elsewhere {
        return;
      }
      var local := new Question[|questions|](i requires 0 <= i < |questions| reads this => questions[i]);
      if dir == Up {
        var above := local[p - 1].(position := p);
        local[p - 1] := local[p].(position := p - 1);
        local[p] := above;
        SwappedTidy(questions, p - 1);
      } else {
        var below := local[p + 1].(position := p);
        local[p + 1] := local[p].(position := p + 1);
        local[p] := below;
        SwappedTidy(questions, p);
      }
      questions := local[..];
    }

    /** updateQuestion: the question at `position` is replaced by `newData`,
      which the question component builds from that very question. */
    method UpdateQuestion(position: int, newData: Question)
      requires Valid() && newData.position == position && Distinct(newData.answers)
      modifies this`questions
      ensures Valid()
      ensures questions == Replaced(old(questions), position, newData)
      ensures forall i :: 0 <= i < |questions| && i != position ==> questions[i] == old(questions)[i]
    {
      questions := Replaced(questions, position, newData);
    }

    /** addAnswer to the question at position `qp`. */
    method AddAnswer(qp: int)
      requires Valid() && 0 <= qp < |questions|
      modifies this`questions
      ensures Valid()
      ensures questions == Replaced(old(questions), qp,
        old(questions)[qp].(answers := WithBlankChoice(old(questions)[qp].answers)))
      ensures forall i :: 0 <= i < |questions| && i != qp ==> questions[i] == old(questions)[i]
    {
      var target := questions[qp];
      var top := LastPosition(ChoicePositions(target.answers));
      var updated := target.(answers := target.answers + [Choice("", top + 1)]);
      BlankChoiceIsNew(target.answers);
      questions := Replaced(questions, qp, updated);
    }

    /** updateAnswer: the option at `ap` of the question at `qp` gets `text`. */
    method UpdateAnswer(text: string, ap: int, qp: int)
      requires Valid() && 0 <= qp < |questions|
      modifies this`questions
      ensures Valid()
      ensures questions == Replaced(old(questions), qp,
        old(questions)[qp].(answers := Retitled(old(questions)[qp].answers, ap, text)))
      ensures forall i :: 0 <= i < |questions| && i != qp ==> questions[i] == old(questions)[i]
    {
      var target := questions[qp];
      var updated := target.(answers := Retitled(target.answers, ap, text));
      questions := Replaced(questions, qp, updated);
    }

    /** removeAnswer: the option at `ap` of the question at `qp` goes away. */
    method RemoveAnswer(ap: int, qp: int)
      requires Valid() && 0 <= qp < |questions|
      modifies this`questions
      ensures Valid()
      ensures questions == Replaced(old(questions), qp,
        old(questions)[qp].(answers := WithoutChoice(old(questions)[qp].answers, ap)))
      ensures forall i :: 0 <= i < |questions| && i != qp ==> questions[i] == old(questions)[i]
    {
      var target := questions[qp];
      WithoutChoiceDistinct(target.answers, ap);
      var updated := target.(answers := WithoutChoice(target.answers, ap));
      questions := Replaced(questions, qp, updated);
    }

    /** validateResult: the survey is handed over for publishing exactly when
      it has a title, at least one question, and every question is well
      formed. The notice left on the page is the last one set. */
    method ValidateResult() returns (publish: bool)
      modifies this`notice, this`sent
      ensures publish <==> (title != "" && |questions| > 0 &&
        forall i :: 0 <= i < |questions| ==> WellFormed(questions[i]))
      ensures sent == (old(sent) || publish)
      ensures publish ==> notice == NoNotice
      ensures title == "" ==> notice == SurveyTitleMissing
      ensures title != "" && questions == [] ==> notice == NoQuestions
      ensures title != "" && questions != [] && !publish ==>
        LastFlawed(questions) >= 0 && notice == FlawNotice(questions[LastFlawed(questions)])
    {
      var qs := questions;
      var valid := true;
      var i := 0;
      while i < |qs|
        invariant 0 <= i <= |qs| && questions == qs && sent == old(sent)
        invariant valid <==> LastFlawed(qs[..i]) == -1
        invariant !valid ==> notice == FlawNotice(qs[LastFlawed(qs[..i])])
      {
        var ok, flaw := CheckQuestion(qs[i]);
        LastFlawedSnoc(qs, i);
        if !ok {
          valid := false;
          notice := flaw;
        }
        i := i + 1;
      }
      assert qs[..|qs|] == qs;
      if |questions| == 0 {
        valid := false;
        notice := NoQuestions;
      }
      if title == "" {
        valid := false;
        notice := SurveyTitleMissing;
      }
      if valid {
        notice := NoNotice;
        sent := true;
      }
      publish := valid;
    }
  }
}
