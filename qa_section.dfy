/**
 * The state logic of the question-and-answer panel: logging in by access
 * code, logging out, adding and deleting questions, and recording a
 * student's answer; plus the add-question dialog's form check.
 *
 * The panel's `useState` hooks become the fields of `QASection`; each
 * handler becomes a method that assigns the fields its setters change. The
 * clock (`Date.now()`, `new Date()`) is a parameter, and an `alert` is a
 * returned flag.
 */
module QA {
  import opened Wrappers
  import opened Text

  datatype Difficulty = Easy | Medium | Hard

  /** A question's `type`: multiple choice or short answer. */
  datatype QuestionType = Mcq | Short

  /** `createdAt` is a time in milliseconds. */
  datatype Question = Question(
    id: string,
    text: string,
    correctAnswer: string,
    difficulty: Difficulty,
    kind: QuestionType,
    options: Option<seq<string>>,
    createdAt: int)

  /** What the dialog hands to `addQuestion`: a question without `id` and `createdAt`. */
  datatype QuestionData = QuestionData(
    text: string,
    correctAnswer: string,
    difficulty: Difficulty,
    kind: QuestionType,
    options: Option<seq<string>>)

  datatype UserAnswer = UserAnswer(questionId: string, answer: string, isCorrect: bool, timestamp: int)

  /** The logged-in role; `userType` is `None` when nobody is logged in. */
  datatype Role = Setter | Student

  datatype Feedback = Feedback(questionId: string, isCorrect: bool, message: string)

  /** The state of the add-question dialog when it is submitted. */
  datatype QuestionForm = QuestionForm(
    questionText: string,
    correctAnswer: string,
    difficulty: Difficulty,
    questionType: QuestionType,
    options: seq<string>)

  const TeacherCode: string := "TEACHER123"
  const StudentCode: string := "STUDENT456"
  const CorrectMessage: string := "Correct! Well done!"
  const RetryMessage: string := "Try again. Think about the concept more carefully."

  // ---------------------------------------------------------------------
  // Answer checking
  // ---------------------------------------------------------------------

  /** `answer.toLowerCase().trim() === correct.toLowerCase().trim()` */
  predicate IsCorrect(answer: string, correct: string)
  {
    Trim(Lower(answer)) == Trim(Lower(correct))
  }

  predicate AllWhitespace(s: string)
  {
    forall k :: 0 <= k < |s| ==> IsWhitespace(s[k])
  }

  /** The answer is accepted whatever whitespace surrounds it and whatever the case of its ASCII letters. */
  lemma IsCorrectIgnoresPaddingAndCase(w1: string, answer: string, w2: string, correct: string)
    requires AllWhitespace(w1) && AllWhitespace(w2)
    ensures IsCorrect(w1 + answer + w2, correct) <==> IsCorrect(answer, correct)
    ensures IsCorrect(Lower(answer), correct) <==> IsCorrect(answer, correct)
  {
    LowerAppend(w1 + answer, w2);
    LowerAppend(w1, answer);
    LowerWhitespace(w1);
    LowerWhitespace(w2);
    TrimPadded(w1, Lower(answer), w2);
    LowerIdempotent(answer);
  }

  /** Checking is an equivalence: the correct answer itself is accepted, and acceptance is symmetric and transitive. */
  lemma IsCorrectEquivalence(a: string, b: string, c: string)
    ensures IsCorrect(a, a)
    ensures IsCorrect(a, b) ==> IsCorrect(b, a)
    ensures IsCorrect(a, b) && IsCorrect(b, c) ==> IsCorrect(a, c)
  {
  }

  // ---------------------------------------------------------------------
  // The lists
  // ---------------------------------------------------------------------

  /** `questions.find(q => q.id === id)` */
  function FindQuestion(qs: seq<Question>, id: string): (r: Option<Question>)
    ensures r.None? <==> forall i :: 0 <= i < |qs| ==> qs[i].id != id
    ensures r.Some? ==> r.value.id == id
    ensures r.Some? ==> exists i :: 0 <= i < |qs| && qs[i] == r.value && (forall j :: 0 <= j < i ==> qs[j].id != id)
  {
    if qs == [] then None
    else if qs[0].id == id then Some(qs[0])
    else
      var r := FindQuestion(qs[1..], id);
      if r.Some? then
        var i :| 0 <= i < |qs[1..]| && qs[1..][i] == r.value && (forall j :: 0 <= j < i ==> qs[1..][j].id != id);
        assert qs[i + 1] == r.value;
        r
      else r
  }

  /** `questions.filter(q => q.id !== id)` */
  function QuestionsWithout(qs: seq<Question>, id: string): seq<Question>
  {
    if qs == [] then []
    else (if qs[0].id == id then [] else [qs[0]]) + QuestionsWithout(qs[1..], id)
  }

  /** `userAnswers.filter(ua => ua.questionId !== id)` */
  function AnswersWithout(uas: seq<UserAnswer>, id: string): seq<UserAnswer>
  {
    if uas == [] then []
    else (if uas[0].questionId == id then [] else [uas[0]]) + AnswersWithout(uas[1..], id)
  }

  /** `[...userAnswers.filter(ua => ua.questionId !== ua'.questionId), ua']` */
  function RecordAnswer(uas: seq<UserAnswer>, ua: UserAnswer): seq<UserAnswer>
  {
    AnswersWithout(uas, ua.questionId) + [ua]
  }

  /** Deleting keeps exactly the questions with another id. */
  lemma {:induction false} QuestionsWithoutMembers(qs: seq<Question>, id: string)
    ensures forall q :: q in QuestionsWithout(qs, id) <==> q in qs && q.id != id
  {
    if qs != [] {
      QuestionsWithoutMembers(qs[1..], id);
      assert qs == [qs[0]] + qs[1..];
    }
  }

  /** Deleting works piece by piece, so the questions kept stay in their order. */
  lemma {:induction false} QuestionsWithoutAppend(xs: seq<Question>, ys: seq<Question>, id: string)
    ensures QuestionsWithout(xs + ys, id) == QuestionsWithout(xs, id) + QuestionsWithout(ys, id)
  {
    if xs != [] {
      assert (xs + ys)[0] == xs[0] && (xs + ys)[1..] == xs[1..] + ys;
      QuestionsWithoutAppend(xs[1..], ys, id);
    } else {
      assert xs + ys == ys;
    }
  }

  /** Deleting an id no question has changes nothing; deleting twice is deleting once. */
  lemma {:induction false} QuestionsWithoutAbsent(qs: seq<Question>, id: string)
    requires forall i :: 0 <= i < |qs| ==> qs[i].id != id
    ensures QuestionsWithout(qs, id) == qs
  {
    if qs != [] {
      QuestionsWithoutAbsent(qs[1..], id);
    }
  }

  lemma QuestionsWithoutIdempotent(qs: seq<Question>, id: string)
    ensures QuestionsWithout(QuestionsWithout(qs, id), id) == QuestionsWithout(qs, id)
  {
    var r := QuestionsWithout(qs, id);
    QuestionsWithoutMembers(qs, id);
    assert forall i :: 0 <= i < |r| ==> r[i] in r;
    QuestionsWithoutAbsent(r, id);
  }

  /** Filtering answers keeps exactly the entries for other questions. */
  lemma {:induction false} AnswersWithoutMembers(uas: seq<UserAnswer>, id: string)
    ensures forall ua :: ua in AnswersWithout(uas, id) <==> ua in uas && ua.questionId != id
  {
    if uas != [] {
      AnswersWithoutMembers(uas[1..], id);
      assert uas == [uas[0]] + uas[1..];
    }
  }

  /** Filtering two ids gives the same list in either order. */
  lemma {:induction false} AnswersWithoutCommute(uas: seq<UserAnswer>, a: string, b: string)
    ensures AnswersWithout(AnswersWithout(uas, a), b) == AnswersWithout(AnswersWithout(uas, b), a)
  {
    if uas != [] {
      var h := [uas[0]];
      var ha := if uas[0].questionId == a then [] else h;
      var hb := if uas[0].questionId == b then [] else h;
      AnswersWithoutCommute(uas[1..], a, b);
      AnswersWithoutAppend(ha, AnswersWithout(uas[1..], a), b);
      AnswersWithoutAppend(hb, AnswersWithout(uas[1..], b), a);
      AnswersWithoutCons(uas[0], [], a);
      AnswersWithoutCons(uas[0], [], b);
      assert AnswersWithout([], a) == [] && AnswersWithout([], b) == [];
    }
  }

  lemma AnswersWithoutCons(ua: UserAnswer, uas: seq<UserAnswer>, id: string)
    ensures AnswersWithout([ua] + uas, id) == (if ua.questionId == id then [] else [ua]) + AnswersWithout(uas, id)
  {
    assert ([ua] + uas)[1..] == uas;
  }

  lemma {:induction false} AnswersWithoutAppend(xs: seq<UserAnswer>, ys: seq<UserAnswer>, id: string)
    ensures AnswersWithout(xs + ys, id) == AnswersWithout(xs, id) + AnswersWithout(ys, id)
  {
    if xs != [] {
      assert (xs + ys)[0] == xs[0] && (xs + ys)[1..] == xs[1..] + ys;
      AnswersWithoutAppend(xs[1..], ys, id);
    } else {
      assert xs + ys == ys;
    }
  }

  /**
   * After recording an answer, it is the one entry for its question and the
   * last; the entries for every other question are those before, in their
   * order.
   */
  lemma RecordAnswerShape(uas: seq<UserAnswer>, ua: UserAnswer)
    ensures var r := RecordAnswer(uas, ua);
      && |r| >= 1 && r[|r| - 1] == ua
      && forall i :: 0 <= i < |r| - 1 ==> r[i].questionId != ua.questionId
    ensures forall id :: id != ua.questionId ==>
      AnswersWithout(RecordAnswer(uas, ua), id) == AnswersWithout(AnswersWithout(uas, id), ua.questionId) + [ua]
  {
    var r := RecordAnswer(uas, ua);
    AnswersWithoutMembers(uas, ua.questionId);
    assert forall i :: 0 <= i < |r| - 1 ==> r[i] in AnswersWithout(uas, ua.questionId);
    forall id | id != ua.questionId
      ensures AnswersWithout(r, id) == AnswersWithout(AnswersWithout(uas, id), ua.questionId) + [ua]
    {
      AnswersWithoutAppend(AnswersWithout(uas, ua.questionId), [ua], id);
      AnswersWithoutCons(ua, [], id);
      AnswersWithoutCommute(uas, ua.questionId, id);
    }
  }

  // ---------------------------------------------------------------------
  // The add-question dialog
  // ---------------------------------------------------------------------

  /** `!s.trim()`: nothing but whitespace. */
  predicate IsBlank(s: string)
  {
    Trim(s) == []
  }

  /** `options.filter(opt => opt.trim())` */
  function NonBlank(opts: seq<string>): seq<string>
  {
    if opts == [] then []
    else (if IsBlank(opts[0]) then [] else [opts[0]]) + NonBlank(opts[1..])
  }

  /** The options kept are exactly the non-blank ones. */
  lemma {:induction false} NonBlankMembers(opts: seq<string>)
    ensures forall o :: o in NonBlank(opts) <==> o in opts && !IsBlank(o)
  {
    if opts != [] {
      NonBlankMembers(opts[1..]);
      assert opts == [opts[0]] + opts[1..];
    }
  }

  /** The options are filtered piece by piece, so those kept stay in their order. */
  lemma {:induction false} NonBlankAppend(xs: seq<string>, ys: seq<string>)
    ensures NonBlank(xs + ys) == NonBlank(xs) + NonBlank(ys)
  {
    if xs != [] {
      assert (xs + ys)[0] == xs[0] && (xs + ys)[1..] == xs[1..] + ys;
      NonBlankAppend(xs[1..], ys);
    } else {
      assert xs + ys == ys;
    }
  }

  /**
   * `handleSubmit`: `None` is the "fill in all required fields" alert, when
   * the question or the answer is blank; otherwise the data handed to
   * `onAdd`, with the non-blank options for a multiple-choice question and
   * none for a short one.
   */
  function SubmitForm(form: QuestionForm): (r: Option<QuestionData>)
    ensures r.None? <==> IsBlank(form.questionText) || IsBlank(form.correctAnswer)
    ensures r.Some? ==>
      && r.value.text == form.questionText && r.value.correctAnswer == form.correctAnswer
      && r.value.difficulty == form.difficulty && r.value.kind == form.questionType
      && (form.questionType == Mcq ==> r.value.options == Some(NonBlank(form.options)))
      && (form.questionType == Short ==> r.value.options == None)
  {
    if IsBlank(form.questionText) || IsBlank(form.correctAnswer) then None
    else Some(QuestionData(
      form.questionText, form.correctAnswer, form.difficulty, form.questionType,
      if form.questionType == Mcq then Some(NonBlank(form.options)) else None))
  }

  /** An accepted form has a question and an answer with some non-whitespace character, and no blank option. */
  lemma SubmitFormAccepted(form: QuestionForm)
    requires SubmitForm(form).Some?
    ensures exists k :: 0 <= k < |form.questionText| && !IsWhitespace(form.questionText[k])
    ensures exists k :: 0 <= k < |form.correctAnswer| && !IsWhitespace(form.correctAnswer[k])
    ensures forall o :: SubmitForm(form).value.options.Some? && o in SubmitForm(form).value.options.value ==> !IsBlank(o)
  {
    TrimEmpty(form.questionText);
    TrimEmpty(form.correctAnswer);
    NonBlankMembers(form.options);
  }

  // ---------------------------------------------------------------------
  // The panel
  // ---------------------------------------------------------------------

  class QASection {
    var userType: Option<Role>
    var userCode: string
    var questions: seq<Question>
    var userAnswers: seq<UserAnswer>
    var showAddQuestion: bool
    var selectedQuestion: Option<Question>
    var currentAnswer: string
    var feedback: Option<Feedback>

    /** The panel as first shown, with the lists read back from storage. */
    constructor(savedQuestions: seq<Question>, savedAnswers: seq<UserAnswer>)
      ensures userType == None && userCode == "" && !showAddQuestion
      ensures questions == savedQuestions && userAnswers == savedAnswers
      ensures selectedQuestion == None && currentAnswer == "" && feedback == None
    {
      userType := None;
      userCode := "";
      questions := savedQuestions;
      userAnswers := savedAnswers;
      showAddQuestion := false;
      selectedQuestion := None;
      currentAnswer := "";
      feedback := None;
    }

    /**
     * `handleLogin` with the code typed so far: the teacher code logs in a
     * question setter, the student code or any code beginning with `STU` a
     * student; any other code raises the "Invalid code!" alert and leaves
     * the role as it was.
     */
    method HandleLogin() returns (invalidCode: bool)
      modifies this
      ensures userCode == TeacherCode ==> userType == Some(Setter) && !invalidCode
      ensures userCode != TeacherCode && (userCode == StudentCode || StartsWith(userCode, "STU")) ==>
        userType == Some(Student) && !invalidCode
      ensures userCode != TeacherCode && userCode != StudentCode && !StartsWith(userCode, "STU") ==>
        userType == old(userType) && invalidCode
      ensures userCode == old(userCode) && questions == old(questions) && userAnswers == old(userAnswers)
      ensures showAddQuestion == old(showAddQuestion) && selectedQuestion == old(selectedQuestion)
      ensures currentAnswer == old(currentAnswer) && feedback == old(feedback)
    {
      invalidCode := false;
      if userCode == TeacherCode {
        userType := Some(Setter);
      } else if userCode == StudentCode || StartsWith(userCode, "STU") {
        userType := Some(Student);
      } else {
        invalidCode := true;
      }
    }

    /** `handleLogout` clears the role, the code, the selection, the answer being typed and the feedback. */
    method HandleLogout()
      modifies this
      ensures userType == None && userCode == "" && selectedQuestion == None
      ensures currentAnswer == "" && feedback == None
      ensures questions == old(questions) && userAnswers == old(userAnswers)
      ensures showAddQuestion == old(showAddQuestion)
    {
      userType := None;
      userCode := "";
      selectedQuestion := None;
      currentAnswer := "";
      feedback := None;
    }

    /**
     * `addQuestion`, given the two clock readings it takes: `Date.now()`
     * (milliseconds), whose decimal text becomes the id, and `new Date()`,
     * the creation time. One question is appended and the dialog is closed.
     */
    method AddQuestion(data: QuestionData, idClock: nat, createdAt: int)
      modifies this
      ensures questions == old(questions) + [Question(NatToString(idClock), data.text, data.correctAnswer,
        data.difficulty, data.kind, data.options, createdAt)]
      ensures !showAddQuestion
      ensures userType == old(userType) && userCode == old(userCode) && userAnswers == old(userAnswers)
      ensures selectedQuestion == old(selectedQuestion) && currentAnswer == old(currentAnswer)
      ensures feedback == old(feedback)
    {
      var q := Question(NatToString(idClock), data.text, data.correctAnswer, data.difficulty, data.kind, data.options, createdAt);
      questions := questions + [q];
      showAddQuestion := false;
    }

    /** `deleteQuestion`: every question with that id is removed, the rest kept in order. */
    method DeleteQuestion(questionId: string)
      modifies this
      ensures questions == QuestionsWithout(old(questions), questionId)
      ensures forall q :: q in questions <==> q in old(questions) && q.id != questionId
      ensures userType == old(userType) && userCode == old(userCode) && userAnswers == old(userAnswers)
      ensures showAddQuestion == old(showAddQuestion) && selectedQuestion == old(selectedQuestion)
      ensures currentAnswer == old(currentAnswer) && feedback == old(feedback)
    {
      QuestionsWithoutMembers(questions, questionId);
      questions := QuestionsWithout(questions, questionId);
    }

    /**
     * `submitAnswer` at time `now`: for an unknown question nothing changes;
     * otherwise the answer is checked against the first question with that
     * id, replaces any earlier answer to it (the new entry last), the
     * feedback names the question and the verdict, and the typed answer is
     * cleared.
     */
    method SubmitAnswer(questionId: string, answer: string, now: int)
      modifies this
      ensures FindQuestion(old(questions), questionId).None? ==>
        && userAnswers == old(userAnswers) && feedback == old(feedback) && currentAnswer == old(currentAnswer)
      ensures FindQuestion(old(questions), questionId).Some? ==>
        var correct := IsCorrect(answer, FindQuestion(old(questions), questionId).value.correctAnswer);
        && userAnswers == RecordAnswer(old(userAnswers), UserAnswer(questionId, answer, correct, now))
        && feedback == Some(Feedback(questionId, correct, if correct then CorrectMessage else RetryMessage))
        && currentAnswer == ""
      ensures userType == old(userType) && userCode == old(userCode) && questions == old(questions)
      ensures showAddQuestion == old(showAddQuestion) && selectedQuestion == old(selectedQuestion)
    {
      var question := FindQuestion(questions, questionId);
      if question.None? {
        return;
      }
      var isCorrect := IsCorrect(answer, question.value.correctAnswer);
      var userAnswer := UserAnswer(questionId, answer, isCorrect, now);
      userAnswers := AnswersWithout(userAnswers, questionId) + [userAnswer];
      feedback := Some(Feedback(questionId, isCorrect, if isCorrect then CorrectMessage else RetryMessage));
      currentAnswer := "";
    }
  }
}
