/** The contents of the four collections at one moment, and the invariant
    every handler keeps: fresh ids and stamps, creation order, records the
    schemas accept, no dangling references, order_index equal to the
    position within the quiz, and scores that agree with the stored
    responses. */
module Integrity {
  import opened Results
  import opened Text
  import opened Models
  import opened Documents
  import opened Queries
  import opened Grading

  /** The four collections in insertion order, the next ObjectId the store
      hands out and the next createdAt stamp. */
  datatype Db = Db(
    quizzes: seq<Quiz>,
    questions: seq<Question>,
    submissions: seq<Submission>,
    responses: seq<Response>,
    nextId: Id,
    clock: nat)

  function Empty(): Db {
    Db([], [], [], [], 0, 0)
  }

  /** Every stored id and stamp was handed out before the counters' values. */
  ghost predicate Fresh(db: Db) {
    && (forall q :: q in db.quizzes ==> q.id < db.nextId && q.created < db.clock)
    && (forall q :: q in db.questions ==> q.id < db.nextId && q.created < db.clock)
    && (forall s :: s in db.submissions ==> s.id < db.nextId && s.created < db.clock)
    && (forall r :: r in db.responses ==> r.id < db.nextId && r.created < db.clock)
  }

  ghost predicate Ordered(db: Db) {
    && QuizzesOrdered(db.quizzes)
    && QuestionsOrdered(db.questions)
    && SubmissionsOrdered(db.submissions)
    && ResponsesOrdered(db.responses)
  }

  /** Every stored record is one its schema accepts. */
  ghost predicate WellFormed(db: Db) {
    && (forall q :: q in db.quizzes ==> QuizWf(q))
    && (forall q :: q in db.questions ==> QuestionWf(q))
    && (forall s :: s in db.submissions ==> SubmissionWf(s))
    && (forall r :: r in db.responses ==> GradedWf(r.graded))
  }

  /** Questions and submissions belong to a stored quiz and responses to a
      stored submission: the delete handler cascades. */
  ghost predicate Linked(db: Db) {
    && (forall q :: q in db.questions ==> q.quizId in QuizIds(db.quizzes))
    && (forall s :: s in db.submissions ==> s.quizId in QuizIds(db.quizzes))
    && (forall r :: r in db.responses ==> r.submissionId in SubmissionIds(db.submissions))
  }

  /** The questions of each quiz, in insertion order, carry order_index
      0, 1, 2, ...: both handlers insert a whole list at once after the
      quiz has none. */
  ghost predicate Indexed(db: Db) {
    forall k: Id, j: int :: 0 <= j < |QuestionsOf(db.questions, k)| ==>
      QuestionsOf(db.questions, k)[j].orderIndex == j
  }

  /** The sum of `points_earned` over stored responses. */
  function Earned(rs: seq<Response>): int {
    if rs == [] then 0 else Earned(rs[..|rs| - 1]) + rs[|rs| - 1].graded.pointsEarned
  }

  /** A submission's score is the sum of the points its responses earned. */
  ghost predicate Scored(db: Db) {
    forall s :: s in db.submissions ==> Earned(ResponsesOf(db.responses, s.id)) == s.score
  }

  ghost predicate Consistent(db: Db) {
    Fresh(db) && Ordered(db) && WellFormed(db) && Linked(db) && Indexed(db) && Scored(db)
  }

  lemma EmptyConsistent()
    ensures Consistent(Empty())
  {
  }

  /** Records of one collection with the same id are the same record. */
  lemma SubmissionIdUnique(subs: seq<Submission>, a: Submission, b: Submission)
    requires SubmissionsOrdered(subs) && a in subs && b in subs && a.id == b.id
    ensures a == b
  {
    var i :| 0 <= i < |subs| && subs[i] == a;
    var j :| 0 <= j < |subs| && subs[j] == b;
  }

  lemma QuizIdUnique(qs: seq<Quiz>, a: Quiz, b: Quiz)
    requires QuizzesOrdered(qs) && a in qs && b in qs && a.id == b.id
    ensures a == b
  {
    var i :| 0 <= i < |qs| && qs[i] == a;
    var j :| 0 <= j < |qs| && qs[j] == b;
  }

  lemma QuestionIdUnique(qs: seq<Question>, a: Question, b: Question)
    requires QuestionsOrdered(qs) && a in qs && b in qs && a.id == b.id
    ensures a == b
  {
    var i :| 0 <= i < |qs| && qs[i] == a;
    var j :| 0 <= j < |qs| && qs[j] == b;
  }

  /** A new question collection that keeps every other quiz's list and
      gives quiz k only ids from `bound` on holds none of k's old ids. */
  lemma RetiredIds(a: seq<Question>, b: seq<Question>, k: Id, bound: Id)
    requires QuestionsOrdered(a) && forall q :: q in a ==> q.id < bound
    requires forall q :: q in QuestionsOf(b, k) ==> q.id >= bound
    requires forall j :: j != k ==> QuestionsOf(b, j) == QuestionsOf(a, j)
    ensures forall q :: q in QuestionsOf(a, k) ==> q.id !in QuestionIds(b)
  {
    forall q, q' | q in QuestionsOf(a, k) && q' in b ensures q'.id != q.id {
      if q'.quizId == k {
        assert q' in QuestionsOf(b, k);
      } else {
        assert q' in QuestionsOf(b, q'.quizId);
        if q'.id == q.id {
          QuestionIdUnique(a, q, q');
        }
      }
    }
  }

  /** In a consistent store the questions of a quiz are already in
      order_index order, so `.sort({ order_index: 1 })` returns them as
      they were inserted. */
  lemma SortedQuestionsOf(db: Db, k: Id)
    requires Consistent(db)
    ensures SortByOrder(QuestionsOf(db.questions, k)) == QuestionsOf(db.questions, k)
  {
    var qs := QuestionsOf(db.questions, k);
    assert SortedByOrder(qs) by {
      forall i, j | 0 <= i < j < |qs| ensures qs[i].orderIndex <= qs[j].orderIndex {
        assert qs[i].orderIndex == i && qs[j].orderIndex == j;
      }
    }
    SortOfSorted(qs);
  }

  /** A quiz id the store has not handed out has no questions yet. */
  lemma NoQuestionsForFresh(db: Db, k: Id)
    requires Fresh(db) && Linked(db) && k >= db.nextId
    ensures QuestionsOf(db.questions, k) == []
  {
    forall q | q in db.questions ensures q.quizId != k {
      var z :| z in db.quizzes && z.id == q.quizId;
    }
    QuestionsOfNone(db.questions, k);
  }

  // ---- the elementary writes ----

  /** `new Quiz(...).save()`. */
  function AddQuiz(db: Db, quiz: Quiz): Db {
    db.(quizzes := db.quizzes + [quiz], nextId := db.nextId + 1, clock := db.clock + 1)
  }

  /** `quiz.save()` of an edited stored quiz, at position i. */
  function SetQuiz(db: Db, i: nat, quiz: Quiz): Db
    requires i < |db.quizzes|
  {
    db.(quizzes := db.quizzes[i := quiz])
  }

  /** `Question.deleteMany({ quiz_id: k })`. */
  function DropQuestions(db: Db, k: Id): Db {
    db.(questions := QuestionsNotOf(db.questions, k))
  }

  /** `Question.insertMany` of the documents built from the drafts. */
  function AddQuestions(db: Db, k: Id, ds: seq<QuestionDraft>): Db
    requires AllInsertable(ds)
  {
    db.(questions := db.questions + Materialize(ds, k, db.nextId, db.clock),
        nextId := db.nextId + |ds|, clock := db.clock + |ds|)
  }

  /** `submission.save()` followed by a `QuestionResponse.insertMany` of its
      graded responses that stores every one of them. */
  function AddSubmission(db: Db, s: Submission, gs: seq<Graded>): Db {
    db.(submissions := db.submissions + [s],
        responses := db.responses + Stamp(gs, s.id, db.nextId + 1, db.clock + 1),
        nextId := db.nextId + 1 + |gs|, clock := db.clock + 1 + |gs|)
  }

  /** The delete handler's cascade for quiz k: its questions, the responses
      of its submissions, its submissions, and the quiz itself. */
  function Cascade(db: Db, k: Id): Db {
    db.(quizzes := QuizzesExcept(db.quizzes, k),
        questions := QuestionsNotOf(db.questions, k),
        submissions := SubmissionsNotOf(db.submissions, k),
        responses := ResponsesNotIn(db.responses, SubmissionIdsOf(db.submissions, k)))
  }

  // ---- AddQuiz keeps the invariant ----

  lemma AddQuizOrdered(db: Db, quiz: Quiz)
    requires Fresh(db) && QuizzesOrdered(db.quizzes) && quiz.id == db.nextId && quiz.created == db.clock
    ensures QuizzesOrdered(AddQuiz(db, quiz).quizzes)
  {
    var qs := AddQuiz(db, quiz).quizzes;
    forall i, j | 0 <= i < j < |qs| ensures qs[i].id < qs[j].id && qs[i].created < qs[j].created {
      assert qs[i] == db.quizzes[i] && db.quizzes[i] in db.quizzes;
    }
  }

  lemma AddQuizLinked(db: Db, quiz: Quiz)
    requires Linked(db)
    ensures Linked(AddQuiz(db, quiz))
  {
    QuizIdsAppend(db.quizzes, [quiz]);
  }

  lemma AddQuizKeeps(db: Db, quiz: Quiz)
    requires Consistent(db)
    requires quiz.id == db.nextId && quiz.created == db.clock && QuizWf(quiz)
    ensures QuizIds(AddQuiz(db, quiz).quizzes) == QuizIds(db.quizzes) + {quiz.id}
    ensures Consistent(AddQuiz(db, quiz))
  {
    QuizIdsAdd(db.quizzes, quiz);
    AddQuizOrdered(db, quiz);
    AddQuizLinked(db, quiz);
    AddQuizFreshWf(db, quiz);
  }

  lemma QuizIdsAdd(qs: seq<Quiz>, quiz: Quiz)
    ensures QuizIds(qs + [quiz]) == QuizIds(qs) + {quiz.id}
  {
    QuizIdsAppend(qs, [quiz]);
    assert QuizIds([quiz]) == {quiz.id};
  }

  lemma AddQuizFreshWf(db: Db, quiz: Quiz)
    requires Fresh(db) && WellFormed(db) && Indexed(db) && Scored(db)
    requires quiz.id == db.nextId && quiz.created == db.clock && QuizWf(quiz)
    ensures var d := AddQuiz(db, quiz); Fresh(d) && WellFormed(d) && Indexed(d) && Scored(d)
  {
    var d := AddQuiz(db, quiz);
    assert d.questions == db.questions && d.submissions == db.submissions && d.responses == db.responses;
    assert d.quizzes == db.quizzes + [quiz];
  }

  // ---- SetQuiz keeps the invariant ----

  lemma SetQuizIds(qs: seq<Quiz>, i: nat, quiz: Quiz)
    requires i < |qs| && quiz.id == qs[i].id
    ensures QuizIds(qs[i := quiz]) == QuizIds(qs)
  {
    var qs' := qs[i := quiz];
    forall k | k in QuizIds(qs) ensures k in QuizIds(qs') {
      var z :| z in qs && z.id == k;
      var j :| 0 <= j < |qs| && qs[j] == z;
      assert qs'[j].id == k;
    }
    forall k | k in QuizIds(qs') ensures k in QuizIds(qs) {
      var z :| z in qs' && z.id == k;
      var j :| 0 <= j < |qs'| && qs'[j] == z;
      assert qs[j].id == k;
    }
  }

  lemma SetQuizFreshWf(db: Db, i: nat, quiz: Quiz)
    requires Fresh(db) && WellFormed(db) && i < |db.quizzes|
    requires quiz.id == db.quizzes[i].id && quiz.created == db.quizzes[i].created && QuizWf(quiz)
    ensures Fresh(SetQuiz(db, i, quiz)) && WellFormed(SetQuiz(db, i, quiz))
  {
    var qs' := SetQuiz(db, i, quiz).quizzes;
    assert db.quizzes[i] in db.quizzes;
    forall z | z in qs' ensures QuizWf(z) && z.id < db.nextId && z.created < db.clock {
      var j :| 0 <= j < |qs'| && qs'[j] == z;
      if j != i {
        assert db.quizzes[j] in db.quizzes;
      }
    }
  }

  lemma SetQuizOrdered(qs: seq<Quiz>, i: nat, quiz: Quiz)
    requires QuizzesOrdered(qs) && i < |qs| && quiz.id == qs[i].id && quiz.created == qs[i].created
    ensures QuizzesOrdered(qs[i := quiz])
  {
  }

  lemma SetQuizKeeps(db: Db, i: nat, quiz: Quiz)
    requires Consistent(db) && i < |db.quizzes|
    requires quiz.id == db.quizzes[i].id && quiz.created == db.quizzes[i].created && QuizWf(quiz)
    ensures QuizIds(SetQuiz(db, i, quiz).quizzes) == QuizIds(db.quizzes)
    ensures Consistent(SetQuiz(db, i, quiz))
  {
    SetQuizIds(db.quizzes, i, quiz);
    SetQuizFreshWf(db, i, quiz);
    SetQuizOrdered(db.quizzes, i, quiz);
  }

  // ---- DropQuestions keeps the invariant ----

  lemma DropQuestionsIndexed(db: Db, k: Id)
    requires Indexed(db)
    ensures Indexed(DropQuestions(db, k))
  {
    var qs' := DropQuestions(db, k).questions;
    forall k': Id, j: int | 0 <= j < |QuestionsOf(qs', k')|
      ensures QuestionsOf(qs', k')[j].orderIndex == j
    {
      QuestionsOfNotOf(db.questions, k, k');
    }
  }

  lemma DropQuestionsKeeps(db: Db, k: Id)
    requires Consistent(db)
    ensures QuestionsOf(DropQuestions(db, k).questions, k) == []
    ensures Consistent(DropQuestions(db, k))
  {
    QuestionsNotOfOrdered(db.questions, k);
    QuestionsOfNotOf(db.questions, k, k);
    DropQuestionsIndexed(db, k);
  }

  /** Deleting quiz k's questions leaves every other quiz's list as it was. */
  lemma DropQuestionsLists(db: Db, k: Id)
    ensures forall j :: QuestionsOf(DropQuestions(db, k).questions, j)
                        == if j == k then [] else QuestionsOf(db.questions, j)
  {
    forall j | true ensures QuestionsOf(DropQuestions(db, k).questions, j)
                            == if j == k then [] else QuestionsOf(db.questions, j) {
      QuestionsOfNotOf(db.questions, k, j);
    }
  }

  // ---- AddQuestions keeps the invariant ----

  /** Inserting the drafts of a quiz that has no questions gives it exactly
      those, and changes no other quiz's list. */
  lemma AddQuestionsOnEmpty(db: Db, k: Id, ds: seq<QuestionDraft>)
    requires AllInsertable(ds) && QuestionsOf(db.questions, k) == []
    ensures QuestionsOf(AddQuestions(db, k, ds).questions, k) == Materialize(ds, k, db.nextId, db.clock)
    ensures forall j :: j != k ==> QuestionsOf(AddQuestions(db, k, ds).questions, j) == QuestionsOf(db.questions, j)
  {
    AddQuestionsLists(db, k, ds);
    assert [] + Materialize(ds, k, db.nextId, db.clock) == Materialize(ds, k, db.nextId, db.clock);
  }

  /** Inserting the drafts of quiz k appends them to k's list and to no
      other list. */
  lemma AddQuestionsLists(db: Db, k: Id, ds: seq<QuestionDraft>)
    requires AllInsertable(ds)
    ensures forall j :: QuestionsOf(AddQuestions(db, k, ds).questions, j)
                        == QuestionsOf(db.questions, j) + (if j == k then Materialize(ds, k, db.nextId, db.clock) else [])
  {
    var added := Materialize(ds, k, db.nextId, db.clock);
    MaterializeShape(ds, k, db.nextId, db.clock);
    forall j | true ensures QuestionsOf(AddQuestions(db, k, ds).questions, j)
                            == QuestionsOf(db.questions, j) + (if j == k then added else []) {
      QuestionsOfAppend(db.questions, added, j);
      if j == k {
        QuestionsOfAll(added, k);
      } else {
        QuestionsOfNone(added, j);
        assert QuestionsOf(db.questions, j) + [] == QuestionsOf(db.questions, j);
      }
    }
  }

  lemma AddQuestionsOrdered(db: Db, k: Id, ds: seq<QuestionDraft>)
    requires forall q :: q in db.questions ==> q.id < db.nextId && q.created < db.clock
    requires QuestionsOrdered(db.questions) && AllInsertable(ds)
    ensures QuestionsOrdered(AddQuestions(db, k, ds).questions)
  {
    var added := Materialize(ds, k, db.nextId, db.clock);
    var qs := AddQuestions(db, k, ds).questions;
    var n := |db.questions|;
    assert qs == db.questions + added;
    MaterializeStamps(ds, k, db.nextId, db.clock);
    forall i, j | 0 <= i < j < |qs| ensures qs[i].id < qs[j].id && qs[i].created < qs[j].created {
      if j < n {
        assert qs[i] == db.questions[i] && qs[j] == db.questions[j];
      } else if i < n {
        assert qs[i] == db.questions[i] && db.questions[i] in db.questions;
        assert qs[j] == added[j - n];
      } else {
        assert qs[i] == added[i - n] && qs[j] == added[j - n];
      }
    }
  }

  lemma AddQuestionsFreshWfLinked(db: Db, k: Id, ds: seq<QuestionDraft>)
    requires Fresh(db) && WellFormed(db) && Linked(db) && k in QuizIds(db.quizzes) && AllInsertable(ds)
    ensures Fresh(AddQuestions(db, k, ds)) && WellFormed(AddQuestions(db, k, ds)) && Linked(AddQuestions(db, k, ds))
  {
    var db' := AddQuestions(db, k, ds);
    var added := Materialize(ds, k, db.nextId, db.clock);
    MaterializeShape(ds, k, db.nextId, db.clock);
    forall q | q in db'.questions
      ensures q.id < db'.nextId && q.created < db'.clock && QuestionWf(q) && q.quizId in QuizIds(db'.quizzes)
    {
      if q !in db.questions {
        var j :| 0 <= j < |added| && added[j] == q;
      }
    }
  }

  lemma AddQuestionsIndexed(db: Db, k: Id, ds: seq<QuestionDraft>)
    requires Indexed(db) && QuestionsOf(db.questions, k) == [] && AllInsertable(ds)
    ensures QuestionsOf(AddQuestions(db, k, ds).questions, k) == Materialize(ds, k, db.nextId, db.clock)
    ensures Indexed(AddQuestions(db, k, ds))
  {
    var added := Materialize(ds, k, db.nextId, db.clock);
    var qs' := AddQuestions(db, k, ds).questions;
    MaterializeShape(ds, k, db.nextId, db.clock);
    QuestionsOfAppend(db.questions, added, k);
    QuestionsOfAll(added, k);
    assert QuestionsOf(qs', k) == added;
    forall k': Id, j: int | 0 <= j < |QuestionsOf(qs', k')|
      ensures QuestionsOf(qs', k')[j].orderIndex == j
    {
      QuestionsOfAppend(db.questions, added, k');
      if k' != k {
        QuestionsOfNone(added, k');
        assert QuestionsOf(qs', k') == QuestionsOf(db.questions, k');
      }
    }
  }

  lemma AddQuestionsKeeps(db: Db, k: Id, ds: seq<QuestionDraft>)
    requires Consistent(db) && k in QuizIds(db.quizzes) && QuestionsOf(db.questions, k) == []
    requires AllInsertable(ds)
    ensures QuestionsOf(AddQuestions(db, k, ds).questions, k) == Materialize(ds, k, db.nextId, db.clock)
    ensures Consistent(AddQuestions(db, k, ds))
  {
    AddQuestionsOrdered(db, k, ds);
    AddQuestionsFreshWfLinked(db, k, ds);
    AddQuestionsIndexed(db, k, ds);
  }

  // ---- AddSubmission keeps the invariant ----

  lemma AddSubmissionFresh(db: Db, s: Submission, gs: seq<Graded>)
    requires Fresh(db) && s.id == db.nextId && s.created == db.clock
    ensures Fresh(AddSubmission(db, s, gs))
  {
    var db' := AddSubmission(db, s, gs);
    var added := Stamp(gs, s.id, db.nextId + 1, db.clock + 1);
    forall r | r in db'.responses ensures r.id < db'.nextId && r.created < db'.clock {
      if r !in db.responses {
        var j :| 0 <= j < |added| && added[j] == r;
      }
    }
  }

  lemma AddSubmissionOrdered(db: Db, s: Submission, gs: seq<Graded>)
    requires Fresh(db) && Ordered(db) && s.id == db.nextId && s.created == db.clock
    ensures Ordered(AddSubmission(db, s, gs))
  {
    var db' := AddSubmission(db, s, gs);
    var added := Stamp(gs, s.id, db.nextId + 1, db.clock + 1);
    forall i, j | 0 <= i < j < |db'.submissions|
      ensures db'.submissions[i].id < db'.submissions[j].id
           && db'.submissions[i].created < db'.submissions[j].created
    {
      assert db'.submissions[i] == db.submissions[i] && db.submissions[i] in db.submissions;
    }
    var n := |db.responses|;
    forall i, j | 0 <= i < j < |db'.responses|
      ensures db'.responses[i].id < db'.responses[j].id && db'.responses[i].created < db'.responses[j].created
    {
      if j < n {
        assert db'.responses[i] == db.responses[i] && db'.responses[j] == db.responses[j];
      } else if i < n {
        assert db'.responses[i] == db.responses[i] && db.responses[i] in db.responses;
        assert db'.responses[j] == added[j - n];
      } else {
        assert db'.responses[i] == added[i - n] && db'.responses[j] == added[j - n];
      }
    }
  }

  lemma AddSubmissionWfLinked(db: Db, s: Submission, gs: seq<Graded>)
    requires WellFormed(db) && Linked(db)
    requires s.quizId in QuizIds(db.quizzes) && SubmissionWf(s)
    requires forall i :: 0 <= i < |gs| ==> GradedWf(gs[i])
    ensures WellFormed(AddSubmission(db, s, gs)) && Linked(AddSubmission(db, s, gs))
  {
    var db' := AddSubmission(db, s, gs);
    var added := Stamp(gs, s.id, db.nextId + 1, db.clock + 1);
    assert db'.quizzes == db.quizzes && db'.questions == db.questions;
    assert db'.submissions == db.submissions + [s] && db'.responses == db.responses + added;
    SubmissionIdsAppend(db.submissions, [s]);
    forall r | r in db'.responses ensures GradedWf(r.graded) && r.submissionId in SubmissionIds(db'.submissions) {
      if r !in db.responses {
        var j :| 0 <= j < |added| && added[j] == r;
      }
    }
  }

  /** No stored response refers to an id the store has not handed out. */
  lemma NoResponsesFor(db: Db, id: Id)
    requires Fresh(db) && Linked(db) && id >= db.nextId
    ensures forall r :: r in db.responses ==> r.submissionId != id
  {
    forall r | r in db.responses ensures r.submissionId != id {
      var x :| x in db.submissions && x.id == r.submissionId;
    }
  }

  /** The responses of a submission whose id no stored response carries
      are exactly the ones appended for it. */
  lemma ResponsesOfNew(rs: seq<Response>, added: seq<Response>, id: Id)
    requires forall r :: r in rs ==> r.submissionId != id
    requires forall r :: r in added ==> r.submissionId == id
    ensures ResponsesOf(rs + added, id) == added
  {
    ResponsesOfAppend(rs, added, id);
    ResponsesOfNone(rs, id);
    ResponsesOfAll(added, id);
  }

  /** Appending the responses of a new submission leaves every earlier
      submission's responses as they were. */
  lemma ScoredAfterAppend(db: Db, s: Submission, added: seq<Response>, nextId: Id, clock: nat)
    requires Scored(db)
    requires forall x :: x in db.submissions ==> x.id != s.id
    requires forall r :: r in added ==> r.submissionId == s.id
    requires ResponsesOf(db.responses + added, s.id) == added && Earned(added) == s.score
    ensures Scored(db.(submissions := db.submissions + [s], responses := db.responses + added,
                       nextId := nextId, clock := clock))
  {
    var db' := db.(submissions := db.submissions + [s], responses := db.responses + added,
                   nextId := nextId, clock := clock);
    forall x | x in db'.submissions
      ensures Earned(ResponsesOf(db'.responses, x.id)) == x.score
    {
      if x in db.submissions {
        ResponsesOfAppend(db.responses, added, x.id);
        ResponsesOfNone(added, x.id);
        assert ResponsesOf(db'.responses, x.id) == ResponsesOf(db.responses, x.id);
      }
    }
  }

  /** Stamped responses earn what their graded halves earned. */
  lemma {:induction false} StampedScore(gs: seq<Graded>, submissionId: Id, firstId: Id, firstCreated: nat)
    ensures Earned(Stamp(gs, submissionId, firstId, firstCreated)) == SumEarned(gs)
    decreases |gs|
  {
    if gs != [] {
      var n := |gs| - 1;
      assert Stamp(gs, submissionId, firstId, firstCreated)[..n] == Stamp(gs[..n], submissionId, firstId, firstCreated);
      StampedScore(gs[..n], submissionId, firstId, firstCreated);
    }
  }

  /** The new submission's responses are the stamped graded responses. */
  lemma AddSubmissionResponses(db: Db, s: Submission, gs: seq<Graded>)
    requires Fresh(db) && Linked(db) && s.id == db.nextId
    ensures ResponsesOf(AddSubmission(db, s, gs).responses, s.id) == Stamp(gs, s.id, db.nextId + 1, db.clock + 1)
  {
    NoResponsesFor(db, s.id);
    StampOwner(gs, s.id, db.nextId + 1, db.clock + 1);
    ResponsesOfNew(db.responses, Stamp(gs, s.id, db.nextId + 1, db.clock + 1), s.id);
  }

  /** The saved submission is found by its id. */
  lemma AddSubmissionFinds(db: Db, s: Submission, gs: seq<Graded>)
    requires Fresh(db) && s.id == db.nextId
    ensures FindSubmission(AddSubmission(db, s, gs).submissions, s.id) == Some(s)
  {
    assert forall x :: x in db.submissions ==> x.id != s.id;
  }

  /** Saving a submission stores no response for any other submission. */
  lemma AddSubmissionKeepsOthers(db: Db, s: Submission, gs: seq<Graded>)
    requires Fresh(db) && s.id == db.nextId
    ensures forall x :: x in db.submissions ==>
      x in AddSubmission(db, s, gs).submissions
      && ResponsesOf(AddSubmission(db, s, gs).responses, x.id) == ResponsesOf(db.responses, x.id)
  {
    var added := Stamp(gs, s.id, db.nextId + 1, db.clock + 1);
    StampOwner(gs, s.id, db.nextId + 1, db.clock + 1);
    forall x | x in db.submissions ensures ResponsesOf(db.responses + added, x.id) == ResponsesOf(db.responses, x.id) {
      ResponsesOfAppend(db.responses, added, x.id);
      ResponsesOfNone(added, x.id);
      assert ResponsesOf(db.responses, x.id) + [] == ResponsesOf(db.responses, x.id);
    }
  }

  lemma AddSubmissionScored(db: Db, s: Submission, gs: seq<Graded>)
    requires Scored(db) && SumEarned(gs) == s.score
    requires forall x :: x in db.submissions ==> x.id != s.id
    requires forall r :: r in db.responses ==> r.submissionId != s.id
    ensures Scored(AddSubmission(db, s, gs))
  {
    var added := Stamp(gs, s.id, db.nextId + 1, db.clock + 1);
    StampedScore(gs, s.id, db.nextId + 1, db.clock + 1);
    StampOwner(gs, s.id, db.nextId + 1, db.clock + 1);
    ResponsesOfNew(db.responses, added, s.id);
    ScoredAfterAppend(db, s, added, db.nextId + 1 + |gs|, db.clock + 1 + |gs|);
    assert AddSubmission(db, s, gs) == db.(submissions := db.submissions + [s], responses := db.responses + added,
                                           nextId := db.nextId + 1 + |gs|, clock := db.clock + 1 + |gs|);
  }

  lemma AddSubmissionKeeps(db: Db, s: Submission, gs: seq<Graded>)
    requires Consistent(db)
    requires s.id == db.nextId && s.created == db.clock && s.quizId in QuizIds(db.quizzes)
    requires SubmissionWf(s) && SumEarned(gs) == s.score
    requires forall i :: 0 <= i < |gs| ==> GradedWf(gs[i])
    ensures ResponsesOf(AddSubmission(db, s, gs).responses, s.id) == Stamp(gs, s.id, db.nextId + 1, db.clock + 1)
    ensures Consistent(AddSubmission(db, s, gs))
  {
    AddSubmissionFresh(db, s, gs);
    AddSubmissionOrdered(db, s, gs);
    AddSubmissionWfLinked(db, s, gs);
    NoResponsesFor(db, s.id);
    AddSubmissionScored(db, s, gs);
    AddSubmissionResponses(db, s, gs);
  }

  // ---- Cascade keeps the invariant ----

  lemma CascadeLinked(db: Db, k: Id)
    requires Linked(db)
    ensures Linked(Cascade(db, k))
  {
    var db' := Cascade(db, k);
    forall q | q in db'.questions ensures q.quizId in QuizIds(db'.quizzes) {
      var z :| z in db.quizzes && z.id == q.quizId;
      assert z in db'.quizzes;
    }
    forall s | s in db'.submissions ensures s.quizId in QuizIds(db'.quizzes) {
      var z :| z in db.quizzes && z.id == s.quizId;
      assert z in db'.quizzes;
    }
    forall r | r in db'.responses ensures r.submissionId in SubmissionIds(db'.submissions) {
      var s :| s in db.submissions && s.id == r.submissionId;
      assert s in db'.submissions;
    }
  }

  lemma CascadeIndexed(db: Db, k: Id)
    requires Indexed(db)
    ensures Indexed(Cascade(db, k))
  {
    var qs' := Cascade(db, k).questions;
    forall k': Id, j: int | 0 <= j < |QuestionsOf(qs', k')|
      ensures QuestionsOf(qs', k')[j].orderIndex == j
    {
      QuestionsOfNotOf(db.questions, k, k');
    }
  }

  lemma CascadeScored(db: Db, k: Id)
    requires SubmissionsOrdered(db.submissions) && Scored(db)
    ensures Scored(Cascade(db, k))
  {
    var db' := Cascade(db, k);
    var gone := SubmissionIdsOf(db.submissions, k);
    forall s | s in db'.submissions
      ensures Earned(ResponsesOf(db'.responses, s.id)) == s.score
    {
      if s.id in gone {
        var s2 :| s2 in db.submissions && s2.quizId == k && s2.id == s.id;
        SubmissionIdUnique(db.submissions, s, s2);
      }
      ResponsesOfNotIn(db.responses, gone, s.id);
    }
  }

  lemma CascadeKeeps(db: Db, k: Id)
    requires Consistent(db)
    ensures Consistent(Cascade(db, k))
  {
    QuizzesExceptOrdered(db.quizzes, k);
    QuestionsNotOfOrdered(db.questions, k);
    SubmissionsNotOfOrdered(db.submissions, k);
    ResponsesNotInOrdered(db.responses, SubmissionIdsOf(db.submissions, k));
    CascadeLinked(db, k);
    CascadeIndexed(db, k);
    CascadeScored(db, k);
  }
}
