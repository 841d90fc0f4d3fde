/** The quiz router as it runs against the database: one object holding the
    four collections, whose handlers insert, edit and delete documents step
    by step in the order the routes do. Each handler leaves the collections
    exactly as the corresponding function of QuizRoutes describes, so every
    property proved there holds of the store, and each keeps the store's
    invariant. */
module Store {
  import opened Results
  import opened Text
  import opened Models
  import opened Documents
  import opened Queries
  import opened Grading
  import opened Integrity
  import QuizRoutes

  class QuizStore {
    var quizzes: seq<Quiz>
    var questions: seq<Question>
    var submissions: seq<Submission>
    var responses: seq<Response>
    /** The next fresh document id and the next creation stamp. */
    var nextId: Id
    var clock: nat

    /** The collections as a value. */
    function Snapshot(): Db
      reads this
    {
      Db(quizzes, questions, submissions, responses, nextId, clock)
    }

    ghost predicate Valid()
      reads this
    {
      Consistent(Snapshot())
    }

    /** An empty database. */
    constructor()
      ensures Valid() && Snapshot() == Empty()
    {
      quizzes, questions, submissions, responses := [], [], [], [];
      nextId, clock := 0, 0;
      new;
      EmptyConsistent();
    }

    // ---- the documents' writes, one database call each ----

    /** `new Quiz(...).save()` of a fresh quiz. */
    method InsertQuiz(quiz: Quiz)
      modifies this
      ensures Snapshot() == AddQuiz(old(Snapshot()), quiz)
    {
      quizzes, nextId, clock := quizzes + [quiz], nextId + 1, clock + 1;
    }

    /** `quiz.save()` of the stored quiz at position i. */
    method SaveQuiz(i: nat, quiz: Quiz)
      requires i < |quizzes|
      modifies this
      ensures Snapshot() == SetQuiz(old(Snapshot()), i, quiz)
    {
      quizzes := quizzes[i := quiz];
    }

    /** `Question.deleteMany({ quiz_id: k })`. */
    method DeleteQuestionsOf(k: Id)
      modifies this
      ensures Snapshot() == DropQuestions(old(Snapshot()), k)
    {
      questions := QuestionsNotOf(questions, k);
    }

    /** `Question.insertMany` of the documents built from the drafts. */
    method InsertQuestions(k: Id, ds: seq<QuestionDraft>)
      requires AllInsertable(ds)
      modifies this
      ensures Snapshot() == AddQuestions(old(Snapshot()), k, ds)
    {
      questions := questions + Materialize(ds, k, nextId, clock);
      nextId, clock := nextId + |ds|, clock + |ds|;
    }

    /** `submission.save()`, then `QuestionResponse.insertMany` of its graded
        responses. */
    method InsertSubmission(s: Submission, gs: seq<Graded>)
      modifies this
      ensures Snapshot() == AddSubmission(old(Snapshot()), s, gs)
    {
      submissions, nextId, clock := submissions + [s], nextId + 1, clock + 1;
      responses := responses + Stamp(gs, s.id, nextId, clock);
      nextId, clock := nextId + |gs|, clock + |gs|;
    }

    /** The delete handler's four deletions, in its order: the questions,
        the responses of the quiz's submissions, the submissions, the quiz. */
    method DeleteQuizCascade(k: Id)
      modifies this
      ensures Snapshot() == Cascade(old(Snapshot()), k)
    {
      questions := QuestionsNotOf(questions, k);
      var submissionIds := SubmissionIdsOf(submissions, k);
      responses := ResponsesNotIn(responses, submissionIds);
      submissions := SubmissionsNotOf(submissions, k);
      quizzes := QuizzesExcept(quizzes, k);
    }

    // ---- the handlers ----

    /** POST /: validate the title, save the quiz, then insert the
        questions in one batch. */
    method Create(title: string, description: Option<string>, drafts: Option<seq<QuestionDraft>>)
      returns (r: Result<Quiz>)
      requires Valid()
      modifies this
      ensures Valid()
      ensures Snapshot() == QuizRoutes.Create(old(Snapshot()), title, description, drafts).db
      ensures r == QuizRoutes.Create(old(Snapshot()), title, description, drafts).result
    {
      QuizRoutes.CreateKeeps(Snapshot(), title, description, drafts);
      if Blank(title) {
        return Err(Validation);
      }
      var quiz := Quiz(nextId, Trim(title), Described(description), false, clock);
      InsertQuiz(quiz);
      if drafts.Some? && |drafts.value| > 0 {
        if !AllInsertable(drafts.value) {
          return Err(Internal);
        }
        InsertQuestions(quiz.id, drafts.value);
      }
      return Ok(quiz);
    }

    /** PUT /:id: find the quiz, edit its fields, save it, then replace its
        questions when a list is given. */
    method Update(id: Id, title: string, description: Option<string>, drafts: Option<seq<QuestionDraft>>)
      returns (r: Result<Quiz>)
      requires Valid()
      modifies this
      ensures Valid()
      ensures Snapshot() == QuizRoutes.Update(old(Snapshot()), id, title, description, drafts).db
      ensures r == QuizRoutes.Update(old(Snapshot()), id, title, description, drafts).result
    {
      QuizRoutes.UpdateKeeps(Snapshot(), id, title, description, drafts);
      var found := FindQuiz(quizzes, id);
      if found.None? {
        return Err(NotFound);
      }
      var i := found.value;
      var quiz := quizzes[i];
      if title != [] {
        quiz := quiz.(title := Trim(title));
      }
      if description.Some? {
        quiz := quiz.(description := Described(description));
      }
      assert quiz == Edited(quizzes[i], title, description);
      if !QuizWf(quiz) {
        return Err(Internal);
      }
      SaveQuiz(i, quiz);
      if drafts.Some? {
        DeleteQuestionsOf(id);
        if |drafts.value| > 0 {
          if !AllInsertable(drafts.value) {
            return Err(Internal);
          }
          InsertQuestions(id, drafts.value);
        }
      }
      return Ok(quiz);
    }

    /** DELETE /:id: the quiz and everything that refers to it. */
    method Delete(id: Id) returns (r: Result<()>)
      requires Valid()
      modifies this
      ensures Valid()
      ensures Snapshot() == QuizRoutes.Delete(old(Snapshot()), id).db
      ensures r == QuizRoutes.Delete(old(Snapshot()), id).result
    {
      QuizRoutes.DeleteKeeps(Snapshot(), id);
      if FindQuiz(quizzes, id).None? {
        return Err(NotFound);
      }
      DeleteQuizCascade(id);
      return Ok(());
    }

    /** PATCH /:id/publish: flip is_published and save. */
    method TogglePublish(id: Id) returns (r: Result<Quiz>)
      requires Valid()
      modifies this
      ensures Valid()
      ensures Snapshot() == QuizRoutes.TogglePublish(old(Snapshot()), id).db
      ensures r == QuizRoutes.TogglePublish(old(Snapshot()), id).result
    {
      QuizRoutes.ToggleKeeps(Snapshot(), id);
      var found := FindQuiz(quizzes, id);
      if found.None? {
        return Err(NotFound);
      }
      var quiz := quizzes[found.value];
      quiz := quiz.(isPublished := !quiz.isPublished);
      if !QuizWf(quiz) {
        return Err(Internal);
      }
      SaveQuiz(found.value, quiz);
      return Ok(quiz);
    }

    /** POST /:id/submit: the checks, the grading loop, then the submission
        and its responses. */
    method Submit(quizId: Id, name: string, answers: Option<map<Id, string>>) returns (r: Result<Id>)
      requires Valid()
      modifies this
      ensures Valid()
      ensures Snapshot() == QuizRoutes.Submit(old(Snapshot()), quizId, name, answers).db
      ensures r == QuizRoutes.Submit(old(Snapshot()), quizId, name, answers).result
    {
      ghost var db := Snapshot();
      QuizRoutes.SubmitKeeps(db, quizId, name, answers);
      if Blank(name) {
        return Err(Validation);
      }
      if answers.None? {
        return Err(Validation);
      }
      if FindQuiz(quizzes, quizId).None? {
        return Err(NotFound);
      }
      var qs := SortByOrder(QuestionsOf(questions, quizId));
      if |qs| == 0 {
        return Err(Validation);
      }
      var score, totalPoints, graded := Grade(qs, answers.value);
      var submission := Submission(nextId, quizId, Trim(name), score, totalPoints, clock);
      assert submission == QuizRoutes.NewSubmission(db, quizId, name, qs, graded);
      InsertSubmission(submission, graded);
      return Ok(submission.id);
    }
  }
}
