/**
 * Grading a submitted quiz (the loop in `attempt_quiz`, app.py) and the way
 * questions record their correct option when they are added or edited.
 *
 * A submission maps a question id to the field name the user selected
 * (`request.form['question_<id>']`).  The name is resolved on the question
 * record by attribute lookup, so any attribute name is accepted, not only
 * the four option slots.
 */
module Scoring {
  import opened Tables
  import opened Models
  import opened Forms

  /** The attribute names of a question record whose value is a text: the
      four option slots, the statement, the correct option itself, the class's
      `__module__` (the records live in models.py) and the `__tablename__`
      that Flask-SQLAlchemy derives from the class name.  Every other name
      yields None or a non-text value, neither of which equals a text. */
  const TextAttributes: set<string> :=
    {"option1", "option2", "option3", "option4", "question_statement", "correct_option",
     "__module__", "__tablename__"}

  /** `getattr(question, name, None)` as far as it can yield a text. */
  function Attribute(q: Question, name: string): (r: Option<string>)
    ensures r.Some? <==> name in TextAttributes
    ensures name == "correct_option" ==> r == Some(q.correctOption)
    ensures name in Slots ==> r.Some? && r.value in [q.option1, q.option2, q.option3, q.option4]
  {
    if name == "option1" then Some(q.option1)
    else if name == "option2" then Some(q.option2)
    else if name == "option3" then Some(q.option3)
    else if name == "option4" then Some(q.option4)
    else if name == "question_statement" then Some(q.statement)
    else if name == "correct_option" then Some(q.correctOption)
    else if name == "__module__" then Some("models")
    else if name == "__tablename__" then Some("question")
    else None
  }

  /** The answer submitted for `q` earns its point: something was selected
      (a non-empty name) and it resolves to the stored correct text. */
  predicate Earns(q: Question, answers: map<nat, string>)
  {
    q.id in answers && answers[q.id] != "" && Attribute(q, answers[q.id]) == Some(q.correctOption)
  }

  /** The number of questions of `qs` whose answer earns a point. */
  function Score(qs: seq<Question>, answers: map<nat, string>): nat
  {
    if qs == [] then 0
    else Score(qs[..|qs| - 1], answers) + (if Earns(qs[|qs| - 1], answers) then 1 else 0)
  }

  /** The grading loop: one point per question whose answer earns it, and the
      number of questions of the quiz as the total. */
  method GradeSubmission(qs: seq<Question>, answers: map<nat, string>) returns (score: nat, total: nat)
    ensures total == |qs|
    ensures score == Score(qs, answers)
    ensures score <= total
  {
    score := 0;
    total := |qs|;
    for i := 0 to |qs|
      invariant score == Score(qs[..i], answers)
      invariant score <= i
    {
      assert qs[..i + 1][..i] == qs[..i];
      var selected := if qs[i].id in answers then answers[qs[i].id] else "";
      if selected != "" {
        var answer := Attribute(qs[i], selected);
        if answer == Some(qs[i].correctOption) {
          score := score + 1;
        }
      }
    }
    assert qs[..|qs|] == qs;
  }

  /** Scores add up over a split of the question list. */
  lemma {:induction false} ScoreSplit(a: seq<Question>, b: seq<Question>, answers: map<nat, string>)
    ensures Score(a + b, answers) == Score(a, answers) + Score(b, answers)
    decreases |b|
  {
    if b != [] {
      var b' := b[..|b| - 1];
      assert (a + b)[..|a + b| - 1] == a + b';
      ScoreSplit(a, b', answers);
    } else {
      assert a + b == a;
    }
  }

  /** 0 <= score <= total, and the score is the full total exactly when every
      question's answer earns its point. */
  lemma {:induction false} FullMarks(qs: seq<Question>, answers: map<nat, string>)
    ensures Score(qs, answers) <= |qs|
    ensures Score(qs, answers) == |qs| <==> forall q :: q in qs ==> Earns(q, answers)
  {
    if qs != [] {
      var init := qs[..|qs| - 1];
      FullMarks(init, answers);
      assert forall q :: q in qs <==> q in init || q == qs[|qs| - 1];
    }
  }

  /** The score is zero exactly when no question's answer earns a point; in
      particular an empty submission scores zero. */
  lemma {:induction false} NoMarks(qs: seq<Question>, answers: map<nat, string>)
    ensures Score(qs, answers) == 0 <==> forall q :: q in qs ==> !Earns(q, answers)
  {
    if qs != [] {
      var init := qs[..|qs| - 1];
      NoMarks(init, answers);
      assert forall q :: q in qs <==> q in init || q == qs[|qs| - 1];
    }
  }

  /** Naming the `correct_option` attribute itself always earns the point. */
  lemma CorrectOptionNameEarns(q: Question, answers: map<nat, string>)
    requires q.id in answers && answers[q.id] == "correct_option"
    ensures Earns(q, answers)
  {
  }

  /** Names outside the four slots can earn too: a question whose correct
      text is "models" is earned by posting `__module__`. */
  lemma ModuleNameEarns(q: Question, answers: map<nat, string>)
    requires q.correctOption == "models"
    requires q.id in answers && answers[q.id] == "__module__"
    ensures Earns(q, answers)
  {
  }

  // ------------------------------------------------ adding and editing questions

  /** The text of the slot a question form names (`getattr(form, key).data`). */
  function SlotText(f: QuestionForm, key: string): string
  {
    if key == "option1" then f.option1
    else if key == "option2" then f.option2
    else if key == "option3" then f.option3
    else if key == "option4" then f.option4
    else ""
  }

  /** `add_question`: the new question stores the TEXT of the chosen slot. */
  function NewQuestion(id: nat, quizId: nat, f: QuestionForm): Question
  {
    Question(id, quizId, f.statement, f.option1, f.option2, f.option3, f.option4,
             SlotText(f, f.correctOption))
  }

  /** A question added through the form is answered correctly by selecting
      the slot that was marked correct. */
  lemma NewQuestionEarnsChosenSlot(id: nat, quizId: nat, f: QuestionForm, answers: map<nat, string>)
    requires f.correctOption in Slots
    requires id in answers && answers[id] == f.correctOption
    ensures Earns(NewQuestion(id, quizId, f), answers)
  {
  }

  /** `edit_question` as written: the question stores the slot KEY
      (`'option1'` ...) as its correct option. */
  function EditQuestionAsWritten(q: Question, f: QuestionForm): Question
  {
    q.(statement := f.statement, option1 := f.option1, option2 := f.option2,
       option3 := f.option3, option4 := f.option4, correctOption := f.correctOption)
  }

  /** After an edit as written, no selection of one of the four slots earns
      the point (unless an option's text happens to be a slot key). */
  lemma EditAsWrittenLosesAnswer(q: Question, f: QuestionForm, answers: map<nat, string>)
    requires f.correctOption in Slots
    requires f.option1 !in Slots && f.option2 !in Slots && f.option3 !in Slots && f.option4 !in Slots
    requires q.id in answers && answers[q.id] in Slots
    ensures !Earns(EditQuestionAsWritten(q, f), answers)
  {
  }

  /** `edit_question` as intended: store the text of the chosen slot, as
      `add_question` does. */
  function EditQuestion(q: Question, f: QuestionForm): Question
  {
    q.(statement := f.statement, option1 := f.option1, option2 := f.option2,
       option3 := f.option3, option4 := f.option4, correctOption := SlotText(f, f.correctOption))
  }

  /** After the intended edit, selecting the slot marked correct earns the point. */
  lemma EditedQuestionEarnsChosenSlot(q: Question, f: QuestionForm, answers: map<nat, string>)
    requires f.correctOption in Slots
    requires q.id in answers && answers[q.id] == f.correctOption
    ensures Earns(EditQuestion(q, f), answers)
  {
  }

  /** The correct option is a plain text with no link to a slot: changing the
      text of the slot that held the answer leaves the stored answer behind,
      and selecting that slot no longer earns the point. */
  lemma RetextedSlotLosesAnswer(q: Question, text: string, answers: map<nat, string>)
    requires q.correctOption == q.option1 && text != q.option1
    requires q.id in answers && answers[q.id] == "option1"
    ensures Earns(q, answers)
    ensures !Earns(q.(option1 := text), answers)
  {
  }
}
