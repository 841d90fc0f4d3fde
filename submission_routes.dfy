/** GET /api/submissions/:id: a stored submission joined with its quiz's
    title and with its responses, each response joined with the question it
    answers as that question is stored now. */
module SubmissionRoutes {
  import opened Results
  import opened Text
  import opened Models
  import opened Documents
  import opened Queries
  import opened Grading
  import opened Integrity
  import QuizRoutes

  /** The question fields `populate('question_id', ...)` selects. */
  datatype QuestionInfo = QuestionInfo(text: string, correctAnswer: string, points: int)

  datatype ResponseView = ResponseView(
    questionId: Id,
    userAnswer: string,
    isCorrect: bool,
    pointsEarned: int,
    question: QuestionInfo)

  /** `submitted_at` is the creation stamp; its ISO rendering is left out. */
  datatype SubmissionView = SubmissionView(
    id: Id,
    participantName: string,
    score: int,
    totalPoints: int,
    submittedAt: nat,
    quizTitle: string)

  datatype Detail = Detail(submission: SubmissionView, responses: seq<ResponseView>)

  /** One response with the question it refers to. */
  function View(r: Response, q: Question): ResponseView {
    ResponseView(q.id, r.graded.userAnswer, r.graded.isCorrect, r.graded.pointsEarned,
                 QuestionInfo(q.text, q.correctAnswer, q.points))
  }

  /** `responses.map(...)` after `populate`: None when some response's
      question no longer exists, since `r.question_id._id` then throws. */
  function Views(rs: seq<Response>, questions: seq<Question>): Option<seq<ResponseView>> {
    if rs == [] then Some([])
    else
      match (Views(rs[..|rs| - 1], questions), FindQuestion(questions, rs[|rs| - 1].graded.questionId))
      case (Some(vs), Some(q)) => Some(vs + [View(rs[|rs| - 1], q)])
      case _ => None
  }

  /** The sum of `points_earned` over the responses shown. */
  function ShownEarned(vs: seq<ResponseView>): int {
    if vs == [] then 0 else ShownEarned(vs[..|vs| - 1]) + vs[|vs| - 1].pointsEarned
  }

  /** The handler. A missing submission is 404; a missing quiz (the title
      lookup) or a missing question makes it throw, which is 500. */
  function GetDetail(db: Db, id: Id): Result<Detail> {
    match FindSubmission(db.submissions, id)
    case None => Err(NotFound)
    case Some(s) =>
      match (FindQuiz(db.quizzes, s.quizId), Views(ResponsesOf(db.responses, id), db.questions))
      case (Some(i), Some(vs)) =>
        Ok(Detail(SubmissionView(s.id, s.participantName, s.score, s.totalPoints, s.created, db.quizzes[i].title), vs))
      case _ => Err(Internal)
  }

  // ---- the join ----

  /** The join succeeds exactly when every response's question is stored,
      and then shows one entry per response, in order, built from that
      response and its question. */
  lemma {:induction false} ViewsShape(rs: seq<Response>, questions: seq<Question>)
    ensures Views(rs, questions).Some?
            <==> forall i :: 0 <= i < |rs| ==> rs[i].graded.questionId in QuestionIds(questions)
    ensures Views(rs, questions).Some? ==>
      && |Views(rs, questions).value| == |rs|
      && forall i :: 0 <= i < |rs| ==>
           Views(rs, questions).value[i] == View(rs[i], FindQuestion(questions, rs[i].graded.questionId).value)
    decreases |rs|
  {
    if rs != [] {
      var n := |rs| - 1;
      ViewsShape(rs[..n], questions);
      assert forall i :: 0 <= i < n ==> rs[..n][i] == rs[i];
    }
  }

  /** The points shown add up to the points the responses store. */
  lemma {:induction false} ViewsEarned(rs: seq<Response>, questions: seq<Question>)
    requires Views(rs, questions).Some?
    ensures ShownEarned(Views(rs, questions).value) == Earned(rs)
    decreases |rs|
  {
    if rs != [] {
      var n := |rs| - 1;
      ViewsEarned(rs[..n], questions);
      var vs := Views(rs[..n], questions).value;
      assert (vs + [View(rs[n], FindQuestion(questions, rs[n].graded.questionId).value)])[..n] == vs by {
        ViewsShape(rs[..n], questions);
      }
    }
  }

  // ---- what the handler promises ----

  /** 404 exactly when no submission has that id; otherwise a detail or
      500. */
  lemma DetailNotFound(db: Db, id: Id)
    ensures GetDetail(db, id) == Err(NotFound) <==> id !in SubmissionIds(db.submissions)
    ensures GetDetail(db, id).Ok? || GetDetail(db, id) == Err(NotFound) || GetDetail(db, id) == Err(Internal)
  {
  }

  /** When every submission's quiz is stored, as the delete cascade
      ensures, the quiz is always there, so the handler fails
      with 500 exactly when a response refers to a question that is gone. */
  lemma DetailInternal(db: Db, id: Id)
    requires Linked(db) && id in SubmissionIds(db.submissions)
    ensures GetDetail(db, id) == Err(Internal)
            <==> exists r :: r in ResponsesOf(db.responses, id) && r.graded.questionId !in QuestionIds(db.questions)
  {
    var s := FindSubmission(db.submissions, id).value;
    assert s.quizId in QuizIds(db.quizzes);
    var rs := ResponsesOf(db.responses, id);
    ViewsShape(rs, db.questions);
    if exists r :: r in rs && r.graded.questionId !in QuestionIds(db.questions) {
      var r :| r in rs && r.graded.questionId !in QuestionIds(db.questions);
      var i :| 0 <= i < |rs| && rs[i] == r;
    }
  }

  /** What a detail shows: the stored submission's fields, its quiz's
      title, and its responses in creation order each with its question;
      the score shown is the sum of the points shown and lies between 0 and
      the total. */
  lemma DetailShows(db: Db, id: Id)
    requires Ordered(db) && WellFormed(db) && Scored(db) && GetDetail(db, id).Ok?
    ensures var d := GetDetail(db, id).value;
      var s := FindSubmission(db.submissions, id).value;
      var rs := ResponsesOf(db.responses, id);
      && d.submission == SubmissionView(s.id, s.participantName, s.score, s.totalPoints, s.created, QuizRoutes.GetQuiz(db, s.quizId).value.title)
      && ResponsesOrdered(rs)
      && |d.responses| == |rs|
      && (forall i :: 0 <= i < |rs| ==>
            && rs[i].graded.questionId in QuestionIds(db.questions)
            && d.responses[i] == View(rs[i], FindQuestion(db.questions, rs[i].graded.questionId).value))
      && d.submission.score == ShownEarned(d.responses)
      && 0 <= d.submission.score <= d.submission.totalPoints
  {
    var s := FindSubmission(db.submissions, id).value;
    var rs := ResponsesOf(db.responses, id);
    ResponsesOfOrdered(db.responses, id);
    ViewsShape(rs, db.questions);
    ViewsEarned(rs, db.questions);
  }

  // ---- a submission, then its detail ----

  /** The entries a detail shows for the grades of questions qs: each
      question's id, the grade, and the question itself. */
  function Shown(gs: seq<Graded>, qs: seq<Question>): seq<ResponseView>
    requires |gs| == |qs|
  {
    seq(|qs|, i requires 0 <= i < |qs| =>
      ResponseView(qs[i].id, gs[i].userAnswer, gs[i].isCorrect, gs[i].pointsEarned,
                   QuestionInfo(qs[i].text, qs[i].correctAnswer, qs[i].points)))
  }

  /** Responses stamped from grades of questions that are all stored join
      with those questions. */
  lemma StampedViews(gs: seq<Graded>, qs: seq<Question>, questions: seq<Question>,
                     submissionId: Id, firstId: Id, firstCreated: nat)
    requires |gs| == |qs|
    requires forall i :: 0 <= i < |qs| ==> gs[i].questionId == qs[i].id
    requires forall i :: 0 <= i < |qs| ==> FindQuestion(questions, qs[i].id) == Some(qs[i])
    ensures Views(Stamp(gs, submissionId, firstId, firstCreated), questions) == Some(Shown(gs, qs))
  {
    var rs := Stamp(gs, submissionId, firstId, firstCreated);
    ViewsShape(rs, questions);
    assert forall i :: 0 <= i < |rs| ==> rs[i].graded == gs[i];
    assert Views(rs, questions).value == Shown(gs, qs);
  }

  /** The detail of a submission just accepted shows the name, score and
      total the submit handler computed, the quiz's title, and one entry per
      question in order_index order with the participant's trimmed answer,
      its grade and the question. */
  lemma SubmitThenDetail(db: Db, quizId: Id, name: string, answers: Option<map<Id, string>>)
    requires Consistent(db) && QuizRoutes.Submit(db, quizId, name, answers).result.Ok?
    ensures var o := QuizRoutes.Submit(db, quizId, name, answers);
      var qs := QuestionsOf(db.questions, quizId);
      var gs := GradeAll(qs, answers.value);
      GetDetail(o.db, db.nextId)
      == Ok(Detail(SubmissionView(db.nextId, Trim(name), SumEarned(gs), SumPoints(qs), db.clock,
                                  QuizRoutes.GetQuiz(db, quizId).value.title),
                   Shown(gs, qs)))
  {
    var qs := QuestionsOf(db.questions, quizId);
    var gs := GradeAll(qs, answers.value);
    var s := QuizRoutes.NewSubmission(db, quizId, name, qs, gs);
    QuizRoutes.SubmitGrades(db, quizId, answers.value);
    assert QuizRoutes.Submit(db, quizId, name, answers).db == AddSubmission(db, s, gs);
    GradedAreWellFormed(qs, answers.value);
    QuestionsOfFound(db.questions, quizId);
    NoResponsesFor(db, s.id);
    assert forall x :: x in db.submissions ==> x.id != s.id;
    DetailAfterAdd(db, s, gs, qs);
  }

  /** The detail of a submission saved with responses graded from stored
      questions. */
  lemma DetailAfterAdd(db: Db, s: Submission, gs: seq<Graded>, qs: seq<Question>)
    requires forall x :: x in db.submissions ==> x.id != s.id
    requires forall r :: r in db.responses ==> r.submissionId != s.id
    requires s.quizId in QuizIds(db.quizzes)
    requires |gs| == |qs|
    requires forall i :: 0 <= i < |qs| ==> gs[i].questionId == qs[i].id
    requires forall i :: 0 <= i < |qs| ==> FindQuestion(db.questions, qs[i].id) == Some(qs[i])
    ensures GetDetail(AddSubmission(db, s, gs), s.id)
            == Ok(Detail(SubmissionView(s.id, s.participantName, s.score, s.totalPoints, s.created,
                                        db.quizzes[FindQuiz(db.quizzes, s.quizId).value].title),
                         Shown(gs, qs)))
  {
    var o := AddSubmission(db, s, gs);
    var rs := Stamp(gs, s.id, db.nextId + 1, db.clock + 1);
    assert o.submissions == db.submissions + [s] && o.responses == db.responses + rs;
    assert o.quizzes == db.quizzes && o.questions == db.questions;
    StampedResponses(db.responses, gs, s.id, db.nextId + 1, db.clock + 1);
    AppendedFound(db.submissions, s);
    StampedViews(gs, qs, db.questions, s.id, db.nextId + 1, db.clock + 1);
    DetailOf(o, s.id, s, FindQuiz(db.quizzes, s.quizId).value, Shown(gs, qs));
  }

  /** The responses stamped for a submission no stored response names are
      exactly that submission's responses. */
  lemma StampedResponses(rs: seq<Response>, gs: seq<Graded>, submissionId: Id, firstId: Id, firstCreated: nat)
    requires forall r :: r in rs ==> r.submissionId != submissionId
    ensures ResponsesOf(rs + Stamp(gs, submissionId, firstId, firstCreated), submissionId)
            == Stamp(gs, submissionId, firstId, firstCreated)
  {
    StampOwner(gs, submissionId, firstId, firstCreated);
    ResponsesOfNew(rs, Stamp(gs, submissionId, firstId, firstCreated), submissionId);
  }

  /** The detail assembled from its parts. */
  lemma DetailOf(db: Db, id: Id, s: Submission, i: nat, vs: seq<ResponseView>)
    requires FindSubmission(db.submissions, id) == Some(s)
    requires FindQuiz(db.quizzes, s.quizId) == Some(i)
    requires Views(ResponsesOf(db.responses, id), db.questions) == Some(vs)
    ensures GetDetail(db, id)
            == Ok(Detail(SubmissionView(s.id, s.participantName, s.score, s.totalPoints, s.created, db.quizzes[i].title), vs))
  {
  }

  /** When question ids are unique, looking up a quiz's question by its id
      finds that very question. */
  lemma QuestionsOfFound(questions: seq<Question>, quizId: Id)
    requires QuestionsOrdered(questions)
    ensures forall i :: 0 <= i < |QuestionsOf(questions, quizId)| ==>
      FindQuestion(questions, QuestionsOf(questions, quizId)[i].id) == Some(QuestionsOf(questions, quizId)[i])
  {
    var qs := QuestionsOf(questions, quizId);
    forall i | 0 <= i < |qs| ensures FindQuestion(questions, qs[i].id) == Some(qs[i]) {
      assert qs[i] in qs;
      var found := FindQuestion(questions, qs[i].id);
      QuestionIdUnique(questions, found.value, qs[i]);
    }
  }

  // ---- an edit, then an earlier submission's detail ----

  /** Giving the update handler a question list deletes the quiz's
      questions and inserts new ones under fresh ids, so the detail of any
      earlier submission that answered one of the old questions fails with
      500 from then on. */
  lemma ReplacedQuestionsBreakDetail(db: Db, k: Id, title: string, description: Option<string>,
                                     drafts: Option<seq<QuestionDraft>>, x: Submission, r: Response)
    requires Consistent(db) && k in QuizIds(db.quizzes) && !(title != [] && Blank(title)) && drafts.Some?
    requires x in db.submissions && r in ResponsesOf(db.responses, x.id)
    requires r.graded.questionId in QuestionIds(QuestionsOf(db.questions, k))
    ensures GetDetail(QuizRoutes.Update(db, k, title, description, drafts).db, x.id) == Err(Internal)
  {
    var o := QuizRoutes.Update(db, k, title, description, drafts);
    QuizRoutes.UpdateKeeps(db, k, title, description, drafts);
    QuizRoutes.UpdateEditsQuiz(db, k, title, description, drafts);
    QuizRoutes.UpdateRetiresQuestions(db, k, title, description, drafts);
    DetailInternal(o.db, x.id);
  }
}
