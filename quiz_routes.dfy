/** The quiz router: the four listings and the create, update, delete,
    publish and submit handlers, each as the change it makes to the store
    and the result it answers with. A request field that is absent reads
    as the empty string, an absent or non-array `questions` as None, and an
    absent, null or non-object `answers` as None. */
module QuizRoutes {
  import opened Results
  import opened Text
  import opened Models
  import opened Documents
  import opened Queries
  import opened Grading
  import opened Integrity

  /** The store after a handler ran, and what the handler answered. */
  datatype Outcome<T> = Outcome(db: Db, result: Result<T>)

  // ---- the listings ----

  /** GET /: the published quizzes, newest first. */
  function Published(db: Db): (r: seq<Quiz>)
    ensures forall q :: q in r <==> q in db.quizzes && q.isPublished
  {
    var r := NewestFirst(PublishedOf(db.quizzes));
    assert forall q :: q in r <==> q in multiset(r);
    r
  }

  /** GET /all: every quiz, newest first. */
  function AllQuizzes(db: Db): (r: seq<Quiz>)
    ensures forall q :: q in r <==> q in db.quizzes
  {
    var r := NewestFirst(db.quizzes);
    assert forall q :: q in r <==> q in multiset(r);
    r
  }

  /** GET /:id: the quiz, or 404. */
  function GetQuiz(db: Db, id: Id): (r: Result<Quiz>)
    ensures r.Ok? ==> r.value in db.quizzes && r.value.id == id
    ensures r == Err(NotFound) <==> id !in QuizIds(db.quizzes)
    ensures r.Ok? || r == Err(NotFound)
  {
    match FindQuiz(db.quizzes, id)
    case None => Err(NotFound)
    case Some(i) => Ok(db.quizzes[i])
  }

  /** GET /:id/questions: the quiz's questions by order_index. The quiz
      itself is not looked up, so an unknown id yields an empty list. */
  function QuizQuestions(db: Db, quizId: Id): (r: seq<Question>)
    ensures multiset(r) == multiset(QuestionsOf(db.questions, quizId))
  {
    SortByOrder(QuestionsOf(db.questions, quizId))
  }

  // ---- the writes ----

  /** POST /: a blank title is refused before anything is written; the
      quiz is saved unpublished, and a non-empty question list is then
      inserted in one batch. A batch with an invalid question is refused
      as a whole, after the quiz was saved. */
  function Create(db: Db, title: string, description: Option<string>, drafts: Option<seq<QuestionDraft>>)
    : Outcome<Quiz>
  {
    if Blank(title) then Outcome(db, Err(Validation))
    else
      var quiz := Quiz(db.nextId, Trim(title), Described(description), false, db.clock);
      var saved := AddQuiz(db, quiz);
      if drafts.Some? && |drafts.value| > 0 then
        if AllInsertable(drafts.value) then Outcome(AddQuestions(saved, quiz.id, drafts.value), Ok(quiz))
        else Outcome(saved, Err(Internal))
      else Outcome(saved, Ok(quiz))
  }

  /** PUT /:id: edits the quiz and saves it, which fails when a title of
      spaces only trims to the empty string; then, when a question list is
      given, deletes the quiz's questions and inserts the new ones. A batch
      with an invalid question fails after the old questions are gone. */
  function Update(db: Db, id: Id, title: string, description: Option<string>, drafts: Option<seq<QuestionDraft>>)
    : Outcome<Quiz>
  {
    match FindQuiz(db.quizzes, id)
    case None => Outcome(db, Err(NotFound))
    case Some(i) =>
      var quiz := Edited(db.quizzes[i], title, description);
      if !QuizWf(quiz) then Outcome(db, Err(Internal))
      else
        var saved := SetQuiz(db, i, quiz);
        if drafts.None? then Outcome(saved, Ok(quiz))
        else
          var cleared := DropQuestions(saved, id);
          if |drafts.value| == 0 then Outcome(cleared, Ok(quiz))
          else if AllInsertable(drafts.value) then Outcome(AddQuestions(cleared, id, drafts.value), Ok(quiz))
          else Outcome(cleared, Err(Internal))
  }

  /** DELETE /:id: the quiz, its questions, its submissions and their
      responses. */
  function Delete(db: Db, id: Id): Outcome<()> {
    match FindQuiz(db.quizzes, id)
    case None => Outcome(db, Err(NotFound))
    case Some(_) => Outcome(Cascade(db, id), Ok(()))
  }

  /** PATCH /:id/publish: flips is_published and saves. */
  function TogglePublish(db: Db, id: Id): Outcome<Quiz> {
    match FindQuiz(db.quizzes, id)
    case None => Outcome(db, Err(NotFound))
    case Some(i) =>
      var quiz := db.quizzes[i].(isPublished := !db.quizzes[i].isPublished);
      if !QuizWf(quiz) then Outcome(db, Err(Internal))
      else Outcome(SetQuiz(db, i, quiz), Ok(quiz))
  }

  /** The submission the submit handler saves for graded questions. */
  function NewSubmission(db: Db, quizId: Id, name: string, qs: seq<Question>, gs: seq<Graded>): Submission {
    Submission(db.nextId, quizId, Trim(name), SumEarned(gs), SumPoints(qs), db.clock)
  }

  /** POST /:id/submit: checks the name, then the answers, then the quiz,
      then that it has questions; grades the questions in order_index
      order, saves the submission and then its responses. This is the
      corrected handler: every response is stored, the unanswered ones with
      an empty answer. SubmitAsWritten below is the code as written. */
  function Submit(db: Db, quizId: Id, name: string, answers: Option<map<Id, string>>): Outcome<Id> {
    if Blank(name) || answers.None? then Outcome(db, Err(Validation))
    else if FindQuiz(db.quizzes, quizId).None? then Outcome(db, Err(NotFound))
    else
      var qs := SortByOrder(QuestionsOf(db.questions, quizId));
      if |qs| == 0 then Outcome(db, Err(Validation))
      else
        var gs := GradeAll(qs, answers.value);
        var s := NewSubmission(db, quizId, name, qs, gs);
        Outcome(AddSubmission(db, s, gs), Ok(s.id))
  }

  /** The submit handler against the QuestionResponse schema as written:
      user_answer is required, so one empty answer makes the batch of
      responses fail validation, after the submission was saved. */
  function SubmitAsWritten(db: Db, quizId: Id, name: string, answers: Option<map<Id, string>>): Outcome<Id> {
    if Blank(name) || answers.None? then Outcome(db, Err(Validation))
    else if FindQuiz(db.quizzes, quizId).None? then Outcome(db, Err(NotFound))
    else
      var qs := SortByOrder(QuestionsOf(db.questions, quizId));
      if |qs| == 0 then Outcome(db, Err(Validation))
      else
        var gs := GradeAll(qs, answers.value);
        var s := NewSubmission(db, quizId, name, qs, gs);
        if AllAccepted(gs) then Outcome(AddSubmission(db, s, gs), Ok(s.id))
        else Outcome(db.(submissions := db.submissions + [s], nextId := db.nextId + 1, clock := db.clock + 1), Err(Internal))
  }

  // ---- what the listings promise ----

  /** The two quiz listings put the newest quiz first: creation stamps
      strictly decrease along them. */
  lemma ListingsNewestFirst(db: Db)
    requires Consistent(db)
    ensures forall i, j :: 0 <= i < j < |Published(db)| ==> Published(db)[i].created > Published(db)[j].created
    ensures forall i, j :: 0 <= i < j < |AllQuizzes(db)| ==> AllQuizzes(db)[i].created > AllQuizzes(db)[j].created
  {
    PublishedOfOrdered(db.quizzes);
  }

  /** The questions come back sorted by order_index, whatever the store. */
  lemma QuizQuestionsSorted(db: Db, quizId: Id)
    ensures SortedByOrder(QuizQuestions(db, quizId))
  {
    SortByOrderSorted(QuestionsOf(db.questions, quizId));
  }

  /** In a consistent store the quiz's questions come back as inserted,
      numbered 0, 1, 2, ... by order_index, and an unknown quiz has none. */
  lemma QuizQuestionsIndexed(db: Db, quizId: Id)
    requires Consistent(db)
    ensures QuizQuestions(db, quizId) == QuestionsOf(db.questions, quizId)
    ensures forall j :: 0 <= j < |QuizQuestions(db, quizId)| ==> QuizQuestions(db, quizId)[j].orderIndex == j
    ensures quizId !in QuizIds(db.quizzes) ==> QuizQuestions(db, quizId) == []
  {
    SortedQuestionsOf(db, quizId);
    if quizId !in QuizIds(db.quizzes) {
      QuestionsOfNone(db.questions, quizId);
    }
  }

  // ---- what the create handler promises ----

  /** A blank title is refused with 400 and nothing is written; otherwise
      the quiz is saved, unpublished, with the trimmed title, whatever
      happens to the questions. */
  lemma CreateSavesQuiz(db: Db, title: string, description: Option<string>, drafts: Option<seq<QuestionDraft>>)
    ensures var o := Create(db, title, description, drafts);
      && (o.result == Err(Validation) <==> Blank(title))
      && (Blank(title) ==> o.db == db)
      && (!Blank(title) ==>
            && o.db.quizzes == db.quizzes + [Quiz(db.nextId, Trim(title), Described(description), false, db.clock)]
            && o.db.submissions == db.submissions && o.db.responses == db.responses)
      && (o.result.Ok? ==> o.result.value == Quiz(db.nextId, Trim(title), Described(description), false, db.clock))
  {
  }

  /** The questions: a valid list is stored under the new quiz with
      order_index 0.. and defaults applied, a list with an invalid question
      is refused with 500 and leaves the new quiz without questions, and no
      other quiz's questions change. */
  lemma CreateStoresQuestions(db: Db, title: string, description: Option<string>, drafts: Option<seq<QuestionDraft>>)
    requires Fresh(db) && Linked(db) && !Blank(title)
    ensures var o := Create(db, title, description, drafts);
      && (o.result == Err(Internal) <==> drafts.Some? && |drafts.value| > 0 && !AllInsertable(drafts.value))
      && (o.result.Ok? || o.result == Err(Internal))
      && QuestionsOf(o.db.questions, db.nextId)
         == (if o.result.Ok? && drafts.Some? then Materialize(drafts.value, db.nextId, db.nextId + 1, db.clock + 1) else [])
      && (forall k :: k != db.nextId ==> QuestionsOf(o.db.questions, k) == QuestionsOf(db.questions, k))
  {
    NoQuestionsForFresh(db, db.nextId);
    CreateQuestionsOf(db, title, description, drafts);
  }

  /** The same, for any store where the new quiz's id has no questions yet. */
  lemma CreateQuestionsOf(db: Db, title: string, description: Option<string>, drafts: Option<seq<QuestionDraft>>)
    requires QuestionsOf(db.questions, db.nextId) == [] && !Blank(title)
    ensures var o := Create(db, title, description, drafts);
      && (o.result == Err(Internal) <==> drafts.Some? && |drafts.value| > 0 && !AllInsertable(drafts.value))
      && (o.result.Ok? || o.result == Err(Internal))
      && QuestionsOf(o.db.questions, db.nextId)
         == (if o.result.Ok? && drafts.Some? then Materialize(drafts.value, db.nextId, db.nextId + 1, db.clock + 1) else [])
      && (forall k :: k != db.nextId ==> QuestionsOf(o.db.questions, k) == QuestionsOf(db.questions, k))
  {
    if drafts.Some? && |drafts.value| > 0 && AllInsertable(drafts.value) {
      CreateInserts(db, title, description, drafts.value);
    } else if drafts.Some? && |drafts.value| == 0 {
      assert Materialize(drafts.value, db.nextId, db.nextId + 1, db.clock + 1) == [];
    }
  }

  /** A valid, non-empty list lands under the new quiz and nowhere else. */
  lemma CreateInserts(db: Db, title: string, description: Option<string>, ds: seq<QuestionDraft>)
    requires QuestionsOf(db.questions, db.nextId) == [] && !Blank(title) && |ds| > 0 && AllInsertable(ds)
    ensures var o := Create(db, title, description, Some(ds));
      && o.result.Ok?
      && QuestionsOf(o.db.questions, db.nextId) == Materialize(ds, db.nextId, db.nextId + 1, db.clock + 1)
      && (forall k :: k != db.nextId ==> QuestionsOf(o.db.questions, k) == QuestionsOf(db.questions, k))
  {
    var quiz := Quiz(db.nextId, Trim(title), Described(description), false, db.clock);
    var saved := AddQuiz(db, quiz);
    var o := Create(db, title, description, Some(ds));
    CreateBatch(db, title, description, ds);
    var inserted := AddQuestions(saved, db.nextId, ds);
    assert o.db == inserted && o.result == Ok(quiz);
    assert saved.questions == db.questions && saved.nextId == db.nextId + 1 && saved.clock == db.clock + 1;
    AddQuestionsOnEmpty(saved, db.nextId, ds);
    assert QuestionsOf(inserted.questions, db.nextId) == Materialize(ds, db.nextId, db.nextId + 1, db.clock + 1);
  }

  /** With a valid, non-empty list the handler saves the quiz and then
      inserts the batch. */
  lemma CreateBatch(db: Db, title: string, description: Option<string>, ds: seq<QuestionDraft>)
    requires !Blank(title) && |ds| > 0 && AllInsertable(ds)
    ensures var quiz := Quiz(db.nextId, Trim(title), Described(description), false, db.clock);
      Create(db, title, description, Some(ds)) == Outcome(AddQuestions(AddQuiz(db, quiz), db.nextId, ds), Ok(quiz))
  {
  }

  lemma CreateKeeps(db: Db, title: string, description: Option<string>, drafts: Option<seq<QuestionDraft>>)
    requires Consistent(db)
    ensures Consistent(Create(db, title, description, drafts).db)
  {
    if !Blank(title) {
      var quiz := Quiz(db.nextId, Trim(title), Described(description), false, db.clock);
      TrimIdempotent(title);
      AddQuizKeeps(db, quiz);
      var saved := AddQuiz(db, quiz);
      if drafts.Some? && |drafts.value| > 0 && AllInsertable(drafts.value) {
        NoQuestionsForFresh(db, db.nextId);
        AddQuestionsKeeps(saved, quiz.id, drafts.value);
      }
    }
  }

  // ---- what the update handler promises ----

  /** 404 exactly when the quiz is unknown, and then nothing is written. */
  lemma UpdateNotFound(db: Db, id: Id, title: string, description: Option<string>, drafts: Option<seq<QuestionDraft>>)
    ensures var o := Update(db, id, title, description, drafts);
      && (o.result == Err(NotFound) <==> id !in QuizIds(db.quizzes))
      && (id !in QuizIds(db.quizzes) ==> o.db == db)
  {
  }

  /** A non-empty title made only of spaces gets past `if (title)`, trims to
      the empty string and fails the save: 500 and nothing written. Any
      other title is saved with the edits, and the handler answers with the
      edited quiz unless the question batch is refused. */
  lemma UpdateEditsQuiz(db: Db, id: Id, title: string, description: Option<string>, drafts: Option<seq<QuestionDraft>>)
    requires WellFormed(db) && id in QuizIds(db.quizzes)
    ensures var o := Update(db, id, title, description, drafts);
      var edited := Edited(GetQuiz(db, id).value, title, description);
      && (title != [] && Blank(title) ==> o == Outcome(db, Err(Internal)))
      && (!(title != [] && Blank(title)) ==>
            && (o.result.Ok? <==> drafts.None? || |drafts.value| == 0 || AllInsertable(drafts.value))
            && (o.result.Ok? || o.result == Err(Internal))
            && (o.result.Ok? ==> o.result.value == edited)
            && GetQuiz(o.db, id) == Ok(edited)
            && QuizIds(o.db.quizzes) == QuizIds(db.quizzes)
            && (forall q :: q in db.quizzes && q.id != id ==> q in o.db.quizzes)
            && o.db.submissions == db.submissions && o.db.responses == db.responses)
  {
    var i := FindQuiz(db.quizzes, id).value;
    var quiz := db.quizzes[i];
    var edited := Edited(quiz, title, description);
    if !(title != [] && Blank(title)) {
      assert quiz in db.quizzes;
      EditedWf(quiz, title, description);
      FindQuizAfterSet(db.quizzes, i, edited);
      SetQuizIds(db.quizzes, i, edited);
      forall q | q in db.quizzes && q.id != id ensures q in db.quizzes[i := edited] {
        var j :| 0 <= j < |db.quizzes| && db.quizzes[j] == q;
        assert db.quizzes[i := edited][j] == q;
      }
    }
  }

  /** When a question list is given, the quiz's old questions are deleted
      and a valid list takes their place, numbered from 0; a refused batch
      leaves the quiz with no questions at all. No other quiz's questions
      change. */
  lemma UpdateReplacesQuestions(db: Db, id: Id, title: string, description: Option<string>, drafts: Option<seq<QuestionDraft>>)
    requires WellFormed(db) && id in QuizIds(db.quizzes) && !(title != [] && Blank(title))
    ensures var o := Update(db, id, title, description, drafts);
      && QuestionsOf(o.db.questions, id)
         == (if drafts.None? then QuestionsOf(db.questions, id)
             else if o.result.Ok? then Materialize(drafts.value, id, db.nextId, db.clock)
             else [])
      && (forall k :: k != id ==> QuestionsOf(o.db.questions, k) == QuestionsOf(db.questions, k))
  {
    var i := FindQuiz(db.quizzes, id).value;
    var edited := Edited(db.quizzes[i], title, description);
    assert db.quizzes[i] in db.quizzes;
    EditedWf(db.quizzes[i], title, description);
    if drafts.Some? {
      var cleared := DropQuestions(SetQuiz(db, i, edited), id);
      DropQuestionsLists(SetQuiz(db, i, edited), id);
      if |drafts.value| == 0 {
        assert Materialize(drafts.value, id, db.nextId, db.clock) == [];
      } else if AllInsertable(drafts.value) {
        AddQuestionsOnEmpty(cleared, id, drafts.value);
      }
    }
  }

  /** Once a question list is given, no question the quiz had before is
      stored any more under its id: the new ones get fresh ids. */
  lemma UpdateRetiresQuestions(db: Db, id: Id, title: string, description: Option<string>, drafts: Option<seq<QuestionDraft>>)
    requires Consistent(db) && id in QuizIds(db.quizzes) && !(title != [] && Blank(title)) && drafts.Some?
    ensures forall q :: q in QuestionsOf(db.questions, id) ==>
      q.id !in QuestionIds(Update(db, id, title, description, drafts).db.questions)
  {
    UpdateRetiresIds(db, id, title, description, drafts);
  }

  lemma UpdateRetiresIds(db: Db, id: Id, title: string, description: Option<string>, drafts: Option<seq<QuestionDraft>>)
    requires WellFormed(db) && QuestionsOrdered(db.questions) && forall q :: q in db.questions ==> q.id < db.nextId
    requires id in QuizIds(db.quizzes) && !(title != [] && Blank(title)) && drafts.Some?
    ensures forall q :: q in QuestionsOf(db.questions, id) ==>
      q.id !in QuestionIds(Update(db, id, title, description, drafts).db.questions)
  {
    var o := Update(db, id, title, description, drafts);
    UpdateReplacesQuestions(db, id, title, description, drafts);
    var renewed := QuestionsOf(o.db.questions, id);
    if o.result.Ok? && |drafts.value| > 0 {
      assert renewed == Materialize(drafts.value, id, db.nextId, db.clock);
      MaterializeShape(drafts.value, id, db.nextId, db.clock);
    } else {
      assert renewed == [];
    }
    RetiredIds(db.questions, o.db.questions, id, db.nextId);
  }

  lemma UpdateKeeps(db: Db, id: Id, title: string, description: Option<string>, drafts: Option<seq<QuestionDraft>>)
    requires Consistent(db)
    ensures Consistent(Update(db, id, title, description, drafts).db)
  {
    match FindQuiz(db.quizzes, id)
    case None =>
    case Some(i) =>
      var edited := Edited(db.quizzes[i], title, description);
      if QuizWf(edited) {
        assert db.quizzes[i] in db.quizzes;
        SetQuizKeeps(db, i, edited);
        var saved := SetQuiz(db, i, edited);
        if drafts.Some? {
          DropQuestionsKeeps(saved, id);
          var cleared := DropQuestions(saved, id);
          if |drafts.value| > 0 && AllInsertable(drafts.value) {
            AddQuestionsKeeps(cleared, id, drafts.value);
          }
        }
      }
  }

  // ---- what the delete handler promises ----

  /** 404 exactly when the quiz is unknown, with nothing written; otherwise
      the handler answers with success. */
  lemma DeleteNotFound(db: Db, id: Id)
    ensures var o := Delete(db, id);
      && (o.result == Err(NotFound) <==> id !in QuizIds(db.quizzes))
      && (id !in QuizIds(db.quizzes) ==> o.db == db)
      && (id in QuizIds(db.quizzes) ==> o.result == Ok(()))
  {
  }

  /** After a delete nothing of the quiz is left: not the quiz, not its
      questions, not its submissions, not their responses. */
  lemma DeleteRemovesQuiz(db: Db, id: Id)
    requires id in QuizIds(db.quizzes)
    ensures var d := Delete(db, id).db;
      && id !in QuizIds(d.quizzes)
      && QuestionsOf(d.questions, id) == []
      && (forall s :: s in d.submissions ==> s.quizId != id)
      && (forall r :: r in d.responses ==> r.submissionId !in SubmissionIdsOf(db.submissions, id))
  {
    var d := Delete(db, id).db;
    QuestionsOfNotOf(db.questions, id, id);
  }

  /** ... and everything else is left as it was: the other quizzes, their
      questions, their submissions and those submissions' responses. */
  lemma DeleteKeepsOthers(db: Db, id: Id)
    requires SubmissionsOrdered(db.submissions) && id in QuizIds(db.quizzes)
    ensures var d := Delete(db, id).db;
      && (forall q :: q in db.quizzes && q.id != id ==> q in d.quizzes)
      && (forall k :: k != id ==> QuestionsOf(d.questions, k) == QuestionsOf(db.questions, k))
      && (forall s :: s in db.submissions && s.quizId != id ==>
            s in d.submissions && ResponsesOf(d.responses, s.id) == ResponsesOf(db.responses, s.id))
  {
    var gone := SubmissionIdsOf(db.submissions, id);
    forall k | k != id ensures QuestionsOf(QuestionsNotOf(db.questions, id), k) == QuestionsOf(db.questions, k) {
      QuestionsOfNotOf(db.questions, id, k);
    }
    forall s | s in db.submissions && s.quizId != id
      ensures ResponsesOf(ResponsesNotIn(db.responses, gone), s.id) == ResponsesOf(db.responses, s.id)
    {
      if s.id in gone {
        var s2 :| s2 in db.submissions && s2.quizId == id && s2.id == s.id;
        SubmissionIdUnique(db.submissions, s, s2);
      }
      ResponsesOfNotIn(db.responses, gone, s.id);
    }
  }

  lemma DeleteKeeps(db: Db, id: Id)
    requires Consistent(db)
    ensures Consistent(Delete(db, id).db)
  {
    CascadeKeeps(db, id);
  }

  // ---- what the publish toggle promises ----

  /** The toggle answers 404 for an unknown quiz; otherwise it flips that
      quiz's is_published, which moves it into or out of the published
      listing, and changes nothing else. A stored quiz always saves again,
      so it never answers 500. */
  lemma ToggleFlips(db: Db, id: Id)
    requires WellFormed(db)
    ensures var o := TogglePublish(db, id);
      && (o.result == Err(NotFound) <==> id !in QuizIds(db.quizzes))
      && (id !in QuizIds(db.quizzes) ==> o.db == db)
      && (id in QuizIds(db.quizzes) ==>
            var q := GetQuiz(db, id).value;
            && o.result == Ok(q.(isPublished := !q.isPublished))
            && GetQuiz(o.db, id) == o.result
            && (o.result.value in Published(o.db) <==> !q.isPublished)
            && QuizIds(o.db.quizzes) == QuizIds(db.quizzes)
            && (forall z :: z in db.quizzes && z.id != id ==> z in o.db.quizzes)
            && o.db.questions == db.questions
            && o.db.submissions == db.submissions && o.db.responses == db.responses)
  {
    if id in QuizIds(db.quizzes) {
      var i := FindQuiz(db.quizzes, id).value;
      var q := db.quizzes[i];
      var flipped := q.(isPublished := !q.isPublished);
      assert q in db.quizzes;
      FindQuizAfterSet(db.quizzes, i, flipped);
      SetQuizIds(db.quizzes, i, flipped);
      assert flipped == db.quizzes[i := flipped][i];
      forall z | z in db.quizzes && z.id != id ensures z in db.quizzes[i := flipped] {
        var j :| 0 <= j < |db.quizzes| && db.quizzes[j] == z;
        assert db.quizzes[i := flipped][j] == z;
      }
    }
  }

  /** Toggling twice restores the store. */
  lemma ToggleTwice(db: Db, id: Id)
    requires WellFormed(db)
    ensures TogglePublish(TogglePublish(db, id).db, id).db == db
  {
    if id in QuizIds(db.quizzes) {
      var i := FindQuiz(db.quizzes, id).value;
      var q := db.quizzes[i];
      var flipped := q.(isPublished := !q.isPublished);
      assert q in db.quizzes;
      FindQuizAfterSet(db.quizzes, i, flipped);
      assert db.quizzes[i := flipped][i := q] == db.quizzes;
    }
  }

  lemma ToggleKeeps(db: Db, id: Id)
    requires Consistent(db)
    ensures Consistent(TogglePublish(db, id).db)
  {
    match FindQuiz(db.quizzes, id)
    case None =>
    case Some(i) =>
      var q := db.quizzes[i];
      assert q in db.quizzes;
      SetQuizKeeps(db, i, q.(isPublished := !q.isPublished));
  }

  // ---- what the submit handler promises ----

  /** The refusals, in the handler's order: 400 for a blank name or missing
      answers, 404 for an unknown quiz, 400 for a quiz without questions;
      a refusal writes nothing, and the handler never answers 500. */
  lemma SubmitRefusals(db: Db, quizId: Id, name: string, answers: Option<map<Id, string>>)
    ensures var o := Submit(db, quizId, name, answers);
      && (o.result == Err(Validation)
          <==> Blank(name) || answers.None? || (quizId in QuizIds(db.quizzes) && QuestionsOf(db.questions, quizId) == []))
      && (o.result == Err(NotFound) <==> !Blank(name) && answers.Some? && quizId !in QuizIds(db.quizzes))
      && (o.result.Err? ==> o.db == db)
      && o.result != Err(Internal)
  {
    var qs := QuestionsOf(db.questions, quizId);
    assert |SortByOrder(qs)| == |multiset(SortByOrder(qs))| == |qs|;
  }

  /** Grading a consistent store's quiz: the questions come in order_index
      order, each worth at least one point, and the score lies within the
      total. */
  lemma SubmitGrades(db: Db, quizId: Id, answers: map<Id, string>)
    requires Consistent(db)
    ensures var qs := QuestionsOf(db.questions, quizId);
      && SortByOrder(qs) == qs
      && (forall i :: 0 <= i < |qs| ==> qs[i].points >= 1 && qs[i].orderIndex == i)
      && 0 <= SumEarned(GradeAll(qs, answers)) <= SumPoints(qs)
      && (forall i :: 0 <= i < |qs| ==> GradedWf(GradeAll(qs, answers)[i]))
  {
    var qs := QuestionsOf(db.questions, quizId);
    SortedQuestionsOf(db, quizId);
    forall i | 0 <= i < |qs| ensures qs[i].points >= 1 {
      assert qs[i] in qs;
    }
    ScoreWithinTotal(qs, answers);
    GradedAreWellFormed(qs, answers);
  }

  /** An accepted submission answers with its new id, stores the
      participant's trimmed name with the score and the total, and stores
      one response per question in order_index order with that question's
      grade. Nothing of the quizzes, of their questions, or of the earlier
      submissions and their responses changes. */
  lemma SubmitRecords(db: Db, quizId: Id, name: string, answers: Option<map<Id, string>>)
    requires Consistent(db) && Submit(db, quizId, name, answers).result.Ok?
    ensures var o := Submit(db, quizId, name, answers);
      var qs := QuestionsOf(db.questions, quizId);
      var gs := GradeAll(qs, answers.value);
      && o.result == Ok(db.nextId)
      && FindSubmission(o.db.submissions, db.nextId)
         == Some(Submission(db.nextId, quizId, Trim(name), SumEarned(gs), SumPoints(qs), db.clock))
      && 0 <= SumEarned(gs) <= SumPoints(qs)
      && ResponsesOf(o.db.responses, db.nextId) == Stamp(gs, db.nextId, db.nextId + 1, db.clock + 1)
      && (forall i :: 0 <= i < |qs| ==> ResponsesOf(o.db.responses, db.nextId)[i].graded == GradeOne(qs[i], answers.value))
      && o.db.quizzes == db.quizzes && o.db.questions == db.questions
      && (forall x :: x in db.submissions ==>
            x in o.db.submissions && ResponsesOf(o.db.responses, x.id) == ResponsesOf(db.responses, x.id))
  {
    var qs := QuestionsOf(db.questions, quizId);
    var gs := GradeAll(qs, answers.value);
    var s := NewSubmission(db, quizId, name, qs, gs);
    SubmitGrades(db, quizId, answers.value);
    SubmitSaves(db, quizId, name, answers);
    AddSubmissionResponses(db, s, gs);
    AddSubmissionFinds(db, s, gs);
    AddSubmissionKeepsOthers(db, s, gs);
    forall i | 0 <= i < |qs| ensures Stamp(gs, s.id, db.nextId + 1, db.clock + 1)[i].graded == GradeOne(qs[i], answers.value) {
      GradeAllAt(qs, answers.value, i);
    }
  }

  /** An accepted submission of a consistent store is saved with the grades
      of the quiz's questions as they are stored. */
  lemma SubmitSaves(db: Db, quizId: Id, name: string, answers: Option<map<Id, string>>)
    requires Consistent(db) && Submit(db, quizId, name, answers).result.Ok?
    ensures var qs := QuestionsOf(db.questions, quizId);
      var gs := GradeAll(qs, answers.value);
      Submit(db, quizId, name, answers) == Outcome(AddSubmission(db, NewSubmission(db, quizId, name, qs, gs), gs), Ok(db.nextId))
  {
    SortedQuestionsOf(db, quizId);
  }

  lemma SubmitKeeps(db: Db, quizId: Id, name: string, answers: Option<map<Id, string>>)
    requires Consistent(db)
    ensures Consistent(Submit(db, quizId, name, answers).db)
  {
    if Submit(db, quizId, name, answers).result.Ok? {
      var qs := QuestionsOf(db.questions, quizId);
      var gs := GradeAll(qs, answers.value);
      SubmitGrades(db, quizId, answers.value);
      TrimIdempotent(name);
      AddSubmissionKeeps(db, NewSubmission(db, quizId, name, qs, gs), gs);
    }
  }

  // ---- the submit handler as written ----

  /** The handler as written departs from the corrected one exactly when a
      submission that would be accepted leaves some question of the quiz
      unanswered or answered with spaces only. */
  lemma AsWrittenDiffersOnBlankAnswer(db: Db, quizId: Id, name: string, answers: Option<map<Id, string>>)
    ensures SubmitAsWritten(db, quizId, name, answers) != Submit(db, quizId, name, answers)
            <==> Submit(db, quizId, name, answers).result.Ok?
                 && exists q :: q in QuestionsOf(db.questions, quizId) && Blank(AnswerFor(answers.value, q.id))
  {
    if Submit(db, quizId, name, answers).result.Ok? {
      var qs := SortByOrder(QuestionsOf(db.questions, quizId));
      var gs := GradeAll(qs, answers.value);
      AsWrittenAccepts(db, quizId, name, answers);
      AnswersAccepted(qs, answers.value);
      SortSameMembers(QuestionsOf(db.questions, quizId));
    }
  }

  /** For a request the corrected handler accepts, the handler as written
      agrees with it exactly when the schema accepts every response. */
  lemma AsWrittenAccepts(db: Db, quizId: Id, name: string, answers: Option<map<Id, string>>)
    requires Submit(db, quizId, name, answers).result.Ok?
    ensures SubmitAsWritten(db, quizId, name, answers) == Submit(db, quizId, name, answers)
            <==> AllAccepted(GradeAll(SortByOrder(QuestionsOf(db.questions, quizId)), answers.value))
  {
  }

  /** Sorting keeps exactly the same questions. */
  lemma SortSameMembers(s: seq<Question>)
    ensures forall q :: q in SortByOrder(s) <==> q in s
  {
    assert forall q :: q in SortByOrder(s) <==> q in multiset(SortByOrder(s));
    assert forall q :: q in s <==> q in multiset(s);
  }

  /** When the handler as written fails, it has stored the submission with
      its score and none of its responses. */
  lemma AsWrittenOrphansSubmission(db: Db, quizId: Id, name: string, answers: Option<map<Id, string>>)
    requires Fresh(db) && Linked(db)
    requires SubmitAsWritten(db, quizId, name, answers).result == Err(Internal)
    ensures var o := SubmitAsWritten(db, quizId, name, answers);
      var gs := GradeAll(SortByOrder(QuestionsOf(db.questions, quizId)), answers.value);
      && FindSubmission(o.db.submissions, db.nextId).Some?
      && FindSubmission(o.db.submissions, db.nextId).value.score == SumEarned(gs)
      && ResponsesOf(o.db.responses, db.nextId) == []
  {
    var qs := SortByOrder(QuestionsOf(db.questions, quizId));
    var gs := GradeAll(qs, answers.value);
    var s := NewSubmission(db, quizId, name, qs, gs);
    assert SubmitAsWritten(db, quizId, name, answers).db.submissions == db.submissions + [s];
    assert SubmitAsWritten(db, quizId, name, answers).db.responses == db.responses;
    NoResponsesFor(db, db.nextId);
    ResponsesOfNone(db.responses, db.nextId);
    assert forall x :: x in db.submissions ==> x.id != s.id;
    AppendedFound(db.submissions, s);
  }

  /** A store with one published quiz of two text questions, 2+2 (2
      points) and 3+3 (3 points). */
  function SumsDb(): Db {
    Db([Quiz(0, "Sums", None, true, 0)],
       [Question(1, 0, "2+2?", TextEntry, None, "4", 2, 0, 1),
        Question(2, 0, "3+3?", TextEntry, None, "6", 3, 1, 2)],
       [], [], 3, 3)
  }

  /** The Sums quiz's questions, as the submit handler reads them. */
  lemma SumsQuestions()
    ensures SortByOrder(QuestionsOf(SumsDb().questions, 0)) == SumsDb().questions
  {
    var qs := SumsDb().questions;
    assert QuestionsOf(qs, 0) == qs;
    assert SortedByOrder(qs);
    SortOfSorted(qs);
  }

  /** How the Sums quiz grades Ada's answers: 2+2 right, 3+3 unanswered. */
  lemma SumsGrades()
    ensures GradeAll(SumsDb().questions, map[1 := " 4 "]) == [Graded(1, "4", true, 2), Graded(2, "", false, 0)]
  {
    var qs := SumsDb().questions;
    var answers := map[1 := " 4 "];
    assert Trim(" 4 ") == "4";
    assert GradeOne(qs[0], answers) == Graded(1, "4", true, 2);
    assert GradeOne(qs[1], answers) == Graded(2, "", false, 0);
    assert qs[..1] == [qs[0]];
    assert GradeAll(qs[..1], answers) == [GradeOne(qs[0], answers)];
  }

  /** The Sums quiz is worth 5 points, and Ada's answers earn 2. */
  lemma SumsTotals()
    ensures SumPoints(SumsDb().questions) == 5
    ensures SumEarned(GradeAll(SumsDb().questions, map[1 := " 4 "])) == 2
  {
    var qs := SumsDb().questions;
    SumsGrades();
    var gs := GradeAll(qs, map[1 := " 4 "]);
    assert qs[..1] == [qs[0]] && [qs[0]][..0] == [];
    assert gs[..1] == [gs[0]] && [gs[0]][..0] == [];
  }

  /** Ada's request: her name, and an answer for 2+2 only. */
  lemma SumsRequest()
    ensures !Blank("Ada") && Trim("Ada") == "Ada"
    ensures FindQuiz(SumsDb().quizzes, 0) == Some(0)
    ensures !ResponseSchemaAccepts(GradeAll(SumsDb().questions, map[1 := " 4 "])[1])
  {
    SumsName();
    SumsGrades();
    assert GradeAll(SumsDb().questions, map[1 := " 4 "])[1].userAnswer == "";
  }

  /** "Ada" has no space to trim. */
  lemma SumsName()
    ensures TrimStart("Ada") == "Ada" && TrimEnd("Ada") == "Ada"
    ensures Trim("Ada") == "Ada" && !Blank("Ada")
  {
    assert !IsSpace('A') && !IsSpace('a');
    assert "Ada"[0] == 'A' && "Ada"[2] == 'a';
  }

  /** Answering 2+2 correctly and leaving 3+3 out: the handler as written
      answers 500, yet it has stored a submission worth 2 points that has
      no responses, so the store no longer adds up. */
  lemma SumsCounterexample()
    ensures var o := SubmitAsWritten(SumsDb(), 0, "Ada", Some(map[1 := " 4 "]));
      && o.result == Err(Internal)
      && FindSubmission(o.db.submissions, 3) == Some(Submission(3, 0, "Ada", 2, 5, 3))
      && ResponsesOf(o.db.responses, 3) == []
      && !Scored(o.db)
  {
    SumsOutcome();
    var s := Submission(3, 0, "Ada", 2, 5, 3);
    assert s in [s];
    assert ResponsesOf([], 3) == [];
  }

  /** What the handler as written does with Ada's request. */
  lemma SumsOutcome()
    ensures SubmitAsWritten(SumsDb(), 0, "Ada", Some(map[1 := " 4 "]))
            == Outcome(SumsDb().(submissions := [Submission(3, 0, "Ada", 2, 5, 3)], nextId := 4, clock := 4), Err(Internal))
  {
    SumsQuestions();
    SumsTotals();
    SumsRequest();
  }

  /** The corrected handler accepts the same request. */
  lemma SumsCorrected()
    ensures Submit(SumsDb(), 0, "Ada", Some(map[1 := " 4 "])).result == Ok(3)
  {
    SumsQuestions();
    SumsRequest();
  }
}
