/** The store queries the handlers issue: find by id, find by field with a
    sort, and delete by field, as functions on the collections' contents
    in insertion order. */
module Queries {
  import opened Results
  import opened Models

  // ---- ordering of a collection ----

  /** Ids and creation stamps strictly increase along a collection: records
      are appended in the order they are created. */
  ghost predicate QuizzesOrdered(s: seq<Quiz>) {
    forall i, j :: 0 <= i < j < |s| ==> s[i].id < s[j].id && s[i].created < s[j].created
  }

  ghost predicate QuestionsOrdered(s: seq<Question>) {
    forall i, j :: 0 <= i < j < |s| ==> s[i].id < s[j].id && s[i].created < s[j].created
  }

  ghost predicate SubmissionsOrdered(s: seq<Submission>) {
    forall i, j :: 0 <= i < j < |s| ==> s[i].id < s[j].id && s[i].created < s[j].created
  }

  ghost predicate ResponsesOrdered(s: seq<Response>) {
    forall i, j :: 0 <= i < j < |s| ==> s[i].id < s[j].id && s[i].created < s[j].created
  }

  // ---- quizzes ----

  function QuizIds(qs: seq<Quiz>): set<Id> {
    set q | q in qs :: q.id
  }

  /** `Quiz.findById`: the position of the quiz with that id. */
  function FindQuiz(qs: seq<Quiz>, id: Id): (r: Option<nat>)
    ensures r.Some? ==> r.value < |qs| && qs[r.value].id == id
    ensures r.None? <==> id !in QuizIds(qs)
  {
    if qs == [] then None
    else if qs[0].id == id then Some(0)
    else match FindQuiz(qs[1..], id)
      case None => None
      case Some(j) => Some(j + 1)
  }

  /** `Quiz.find({ is_published: true })`. */
  function PublishedOf(qs: seq<Quiz>): (r: seq<Quiz>)
    ensures forall q :: q in r <==> q in qs && q.isPublished
  {
    if qs == [] then []
    else if qs[0].isPublished then [qs[0]] + PublishedOf(qs[1..])
    else PublishedOf(qs[1..])
  }

  /** `Quiz.findByIdAndDelete`. */
  function QuizzesExcept(qs: seq<Quiz>, id: Id): (r: seq<Quiz>)
    ensures forall q :: q in r <==> q in qs && q.id != id
  {
    if qs == [] then []
    else if qs[0].id != id then [qs[0]] + QuizzesExcept(qs[1..], id)
    else QuizzesExcept(qs[1..], id)
  }

  /** `.sort({ createdAt: -1 })` on a collection kept in creation order. */
  function NewestFirst(qs: seq<Quiz>): (r: seq<Quiz>)
    ensures |r| == |qs|
    ensures forall i :: 0 <= i < |qs| ==> r[i] == qs[|qs| - 1 - i]
    ensures multiset(r) == multiset(qs)
  {
    if qs == [] then []
    else
      assert qs == [qs[0]] + qs[1..];
      NewestFirst(qs[1..]) + [qs[0]]
  }

  // ---- questions ----

  function QuestionIds(qs: seq<Question>): set<Id> {
    set q | q in qs :: q.id
  }

  /** `Question.find({ quiz_id })`, in insertion order. */
  function QuestionsOf(qs: seq<Question>, quizId: Id): (r: seq<Question>)
    ensures forall q :: q in r <==> q in qs && q.quizId == quizId
  {
    if qs == [] then []
    else if qs[0].quizId == quizId then [qs[0]] + QuestionsOf(qs[1..], quizId)
    else QuestionsOf(qs[1..], quizId)
  }

  /** `Question.deleteMany({ quiz_id })`: what is left. */
  function QuestionsNotOf(qs: seq<Question>, quizId: Id): (r: seq<Question>)
    ensures forall q :: q in r <==> q in qs && q.quizId != quizId
  {
    if qs == [] then []
    else if qs[0].quizId != quizId then [qs[0]] + QuestionsNotOf(qs[1..], quizId)
    else QuestionsNotOf(qs[1..], quizId)
  }

  /** `Question.findById` (what `populate('question_id')` resolves). */
  function FindQuestion(qs: seq<Question>, id: Id): (r: Option<Question>)
    ensures r.Some? ==> r.value in qs && r.value.id == id
    ensures r.None? <==> id !in QuestionIds(qs)
  {
    if qs == [] then None
    else if qs[0].id == id then Some(qs[0])
    else FindQuestion(qs[1..], id)
  }

  // ---- sorting questions by order_index ----

  ghost predicate SortedByOrder(s: seq<Question>) {
    forall i, j :: 0 <= i < j < |s| ==> s[i].orderIndex <= s[j].orderIndex
  }

  /** Inserts q before the first element whose order_index is not smaller,
      so that among equal order_index values the earlier one stays first. */
  function InsertByOrder(q: Question, s: seq<Question>): (r: seq<Question>)
    ensures multiset(r) == multiset(s) + multiset{q}
    ensures forall x :: x in r <==> x == q || x in s
  {
    if s == [] || q.orderIndex <= s[0].orderIndex then [q] + s
    else
      assert s == [s[0]] + s[1..];
      [s[0]] + InsertByOrder(q, s[1..])
  }

  /** `.sort({ order_index: 1 })`. The store leaves the order among equal
      keys unspecified; the model fixes it as the stable one. In a
      consistent store a quiz's questions carry distinct order_index values
      (Integrity.Indexed), so the choice does not show there. */
  function SortByOrder(s: seq<Question>): (r: seq<Question>)
    ensures multiset(r) == multiset(s)
  {
    if s == [] then []
    else
      assert s == [s[0]] + s[1..];
      InsertByOrder(s[0], SortByOrder(s[1..]))
  }

  /** Sorting a sequence that is already in order_index order returns it
      unchanged. */
  lemma {:induction false} SortOfSorted(s: seq<Question>)
    requires SortedByOrder(s)
    ensures SortByOrder(s) == s
  {
    if s != [] {
      SortOfSorted(s[1..]);
    }
  }

  // ---- submissions ----

  function SubmissionIds(subs: seq<Submission>): set<Id> {
    set s | s in subs :: s.id
  }

  /** `QuizSubmission.find({ quiz_id }).map(s => s._id)`, as the set used
      by `$in`. */
  function SubmissionIdsOf(subs: seq<Submission>, quizId: Id): set<Id> {
    set s | s in subs && s.quizId == quizId :: s.id
  }

  /** `QuizSubmission.deleteMany({ quiz_id })`: what is left. */
  function SubmissionsNotOf(subs: seq<Submission>, quizId: Id): (r: seq<Submission>)
    ensures forall s :: s in r <==> s in subs && s.quizId != quizId
  {
    if subs == [] then []
    else if subs[0].quizId != quizId then [subs[0]] + SubmissionsNotOf(subs[1..], quizId)
    else SubmissionsNotOf(subs[1..], quizId)
  }

  /** `QuizSubmission.findById`. */
  function FindSubmission(subs: seq<Submission>, id: Id): (r: Option<Submission>)
    ensures r.Some? ==> r.value in subs && r.value.id == id
    ensures r.None? <==> id !in SubmissionIds(subs)
  {
    if subs == [] then None
    else if subs[0].id == id then Some(subs[0])
    else FindSubmission(subs[1..], id)
  }

  /** A submission appended under an id no stored one carries is found. */
  lemma AppendedFound(subs: seq<Submission>, s: Submission)
    requires forall x :: x in subs ==> x.id != s.id
    ensures FindSubmission(subs + [s], s.id) == Some(s)
  {
  }

  // ---- responses ----

  /** `QuestionResponse.find({ submission_id })`, in insertion order. */
  function ResponsesOf(rs: seq<Response>, submissionId: Id): seq<Response> {
    if rs == [] then []
    else if rs[0].submissionId == submissionId then [rs[0]] + ResponsesOf(rs[1..], submissionId)
    else ResponsesOf(rs[1..], submissionId)
  }

  /** The query returns exactly the responses of that submission. */
  lemma {:induction false} ResponsesOfMembers(rs: seq<Response>, submissionId: Id)
    ensures forall x :: x in ResponsesOf(rs, submissionId) <==> x in rs && x.submissionId == submissionId
    decreases |rs|
  {
    if rs != [] {
      ResponsesOfMembers(rs[1..], submissionId);
    }
  }

  /** `QuestionResponse.deleteMany({ submission_id: { $in: ids } })`: what
      is left. */
  function ResponsesNotIn(rs: seq<Response>, ids: set<Id>): (r: seq<Response>)
    ensures forall x :: x in r <==> x in rs && x.submissionId !in ids
  {
    if rs == [] then []
    else if rs[0].submissionId !in ids then [rs[0]] + ResponsesNotIn(rs[1..], ids)
    else ResponsesNotIn(rs[1..], ids)
  }

  // ---- the filters keep a collection's order ----

  lemma QuizHeadBelow(s: seq<Quiz>)
    requires QuizzesOrdered(s) && s != []
    ensures QuizzesOrdered(s[1..])
    ensures forall x :: x in s[1..] ==> s[0].id < x.id && s[0].created < x.created
  {
    forall x | x in s[1..] ensures s[0].id < x.id && s[0].created < x.created {
      var k :| 0 <= k < |s[1..]| && s[1..][k] == x;
      assert s[k + 1] == x;
    }
  }

  lemma QuestionHeadBelow(s: seq<Question>)
    requires QuestionsOrdered(s) && s != []
    ensures QuestionsOrdered(s[1..])
    ensures forall x :: x in s[1..] ==> s[0].id < x.id && s[0].created < x.created
  {
    forall x | x in s[1..] ensures s[0].id < x.id && s[0].created < x.created {
      var k :| 0 <= k < |s[1..]| && s[1..][k] == x;
      assert s[k + 1] == x;
    }
  }

  lemma SubmissionHeadBelow(s: seq<Submission>)
    requires SubmissionsOrdered(s) && s != []
    ensures SubmissionsOrdered(s[1..])
    ensures forall x :: x in s[1..] ==> s[0].id < x.id && s[0].created < x.created
  {
    forall x | x in s[1..] ensures s[0].id < x.id && s[0].created < x.created {
      var k :| 0 <= k < |s[1..]| && s[1..][k] == x;
      assert s[k + 1] == x;
    }
  }

  lemma ResponseHeadBelow(s: seq<Response>)
    requires ResponsesOrdered(s) && s != []
    ensures ResponsesOrdered(s[1..])
    ensures forall x :: x in s[1..] ==> s[0].id < x.id && s[0].created < x.created
  {
    forall x | x in s[1..] ensures s[0].id < x.id && s[0].created < x.created {
      var k :| 0 <= k < |s[1..]| && s[1..][k] == x;
      assert s[k + 1] == x;
    }
  }

  lemma {:induction false} PublishedOfOrdered(qs: seq<Quiz>)
    requires QuizzesOrdered(qs)
    ensures QuizzesOrdered(PublishedOf(qs))
  {
    if qs != [] {
      QuizHeadBelow(qs);
      PublishedOfOrdered(qs[1..]);
    }
  }

  lemma {:induction false} QuizzesExceptOrdered(qs: seq<Quiz>, id: Id)
    requires QuizzesOrdered(qs)
    ensures QuizzesOrdered(QuizzesExcept(qs, id))
  {
    if qs != [] {
      QuizHeadBelow(qs);
      QuizzesExceptOrdered(qs[1..], id);
    }
  }

  lemma {:induction false} QuestionsOfOrdered(qs: seq<Question>, quizId: Id)
    requires QuestionsOrdered(qs)
    ensures QuestionsOrdered(QuestionsOf(qs, quizId))
  {
    if qs != [] {
      QuestionHeadBelow(qs);
      QuestionsOfOrdered(qs[1..], quizId);
    }
  }

  lemma {:induction false} QuestionsNotOfOrdered(qs: seq<Question>, quizId: Id)
    requires QuestionsOrdered(qs)
    ensures QuestionsOrdered(QuestionsNotOf(qs, quizId))
  {
    if qs != [] {
      QuestionHeadBelow(qs);
      QuestionsNotOfOrdered(qs[1..], quizId);
    }
  }

  lemma {:induction false} SubmissionsNotOfOrdered(subs: seq<Submission>, quizId: Id)
    requires SubmissionsOrdered(subs)
    ensures SubmissionsOrdered(SubmissionsNotOf(subs, quizId))
  {
    if subs != [] {
      SubmissionHeadBelow(subs);
      SubmissionsNotOfOrdered(subs[1..], quizId);
    }
  }

  lemma {:induction false} ResponsesOfOrdered(rs: seq<Response>, submissionId: Id)
    requires ResponsesOrdered(rs)
    ensures ResponsesOrdered(ResponsesOf(rs, submissionId))
  {
    if rs != [] {
      ResponseHeadBelow(rs);
      ResponsesOfMembers(rs[1..], submissionId);
      ResponsesOfOrdered(rs[1..], submissionId);
    }
  }

  lemma {:induction false} ResponsesNotInOrdered(rs: seq<Response>, ids: set<Id>)
    requires ResponsesOrdered(rs)
    ensures ResponsesOrdered(ResponsesNotIn(rs, ids))
  {
    if rs != [] {
      ResponseHeadBelow(rs);
      ResponsesNotInOrdered(rs[1..], ids);
    }
  }

  // ---- sorting ----

  lemma {:induction false} InsertByOrderSorted(q: Question, s: seq<Question>)
    requires SortedByOrder(s)
    ensures SortedByOrder(InsertByOrder(q, s))
  {
    if s != [] && q.orderIndex > s[0].orderIndex {
      InsertByOrderSorted(q, s[1..]);
      var r := InsertByOrder(q, s[1..]);
      forall x | x in r ensures s[0].orderIndex <= x.orderIndex {
        if x != q {
          var k :| 0 <= k < |s[1..]| && s[1..][k] == x;
          assert s[k + 1] == x;
        }
      }
      assert forall j :: 0 <= j < |r| ==> r[j] in r;
    }
  }

  /** The result of the sort is in ascending order_index order. */
  lemma {:induction false} SortByOrderSorted(s: seq<Question>)
    ensures SortedByOrder(SortByOrder(s))
  {
    if s != [] {
      SortByOrderSorted(s[1..]);
      InsertByOrderSorted(s[0], SortByOrder(s[1..]));
    }
  }

  // ---- how the filters compose ----

  lemma {:induction false} QuestionsOfAppend(a: seq<Question>, b: seq<Question>, quizId: Id)
    ensures QuestionsOf(a + b, quizId) == QuestionsOf(a, quizId) + QuestionsOf(b, quizId)
    decreases |a|
  {
    if a == [] {
      assert a + b == b;
    } else {
      assert (a + b)[1..] == a[1..] + b;
      QuestionsOfAppend(a[1..], b, quizId);
    }
  }

  lemma {:induction false} QuestionsOfAll(s: seq<Question>, quizId: Id)
    requires forall q :: q in s ==> q.quizId == quizId
    ensures QuestionsOf(s, quizId) == s
    decreases |s|
  {
    if s != [] {
      QuestionsOfAll(s[1..], quizId);
    }
  }

  lemma QuestionsOfNone(s: seq<Question>, quizId: Id)
    requires forall q :: q in s ==> q.quizId != quizId
    ensures QuestionsOf(s, quizId) == []
  {
  }

  /** After deleting one quiz's questions, that quiz has none and every
      other quiz keeps exactly the ones it had, in the same order. */
  lemma {:induction false} QuestionsOfNotOf(s: seq<Question>, deleted: Id, quizId: Id)
    ensures QuestionsOf(QuestionsNotOf(s, deleted), quizId)
            == if quizId == deleted then [] else QuestionsOf(s, quizId)
    decreases |s|
  {
    if s != [] {
      QuestionsOfNotOf(s[1..], deleted, quizId);
    }
  }

  lemma {:induction false} ResponsesOfAppend(a: seq<Response>, b: seq<Response>, submissionId: Id)
    ensures ResponsesOf(a + b, submissionId) == ResponsesOf(a, submissionId) + ResponsesOf(b, submissionId)
    decreases |a|
  {
    if a == [] {
      assert a + b == b;
    } else {
      assert (a + b)[1..] == a[1..] + b;
      ResponsesOfAppend(a[1..], b, submissionId);
    }
  }

  lemma {:induction false} ResponsesOfAll(s: seq<Response>, submissionId: Id)
    requires forall x :: x in s ==> x.submissionId == submissionId
    ensures ResponsesOf(s, submissionId) == s
    decreases |s|
  {
    if s != [] {
      ResponsesOfAll(s[1..], submissionId);
    }
  }

  lemma {:induction false} ResponsesOfNone(s: seq<Response>, submissionId: Id)
    requires forall x :: x in s ==> x.submissionId != submissionId
    ensures ResponsesOf(s, submissionId) == []
    decreases |s|
  {
    if s != [] {
      ResponsesOfNone(s[1..], submissionId);
    }
  }

  /** Deleting the responses of some submissions leaves the responses of
      every other submission as they were. */
  lemma {:induction false} ResponsesOfNotIn(s: seq<Response>, deleted: set<Id>, submissionId: Id)
    requires submissionId !in deleted
    ensures ResponsesOf(ResponsesNotIn(s, deleted), submissionId) == ResponsesOf(s, submissionId)
    decreases |s|
  {
    if s != [] {
      ResponsesOfNotIn(s[1..], deleted, submissionId);
    }
  }

  lemma QuizIdsAppend(a: seq<Quiz>, b: seq<Quiz>)
    ensures QuizIds(a + b) == QuizIds(a) + QuizIds(b)
  {
    forall k | k in QuizIds(a + b) ensures k in QuizIds(a) + QuizIds(b) {
      var q :| q in a + b && q.id == k;
    }
  }

  lemma SubmissionIdsAppend(a: seq<Submission>, b: seq<Submission>)
    ensures SubmissionIds(a + b) == SubmissionIds(a) + SubmissionIds(b)
  {
    forall k | k in SubmissionIds(a + b) ensures k in SubmissionIds(a) + SubmissionIds(b) {
      var s :| s in a + b && s.id == k;
    }
  }

  /** Saving the quiz found at position i finds it there again. */
  lemma {:induction false} FindQuizAfterSet(qs: seq<Quiz>, i: nat, quiz: Quiz)
    requires i < |qs| && FindQuiz(qs, quiz.id) == Some(i)
    ensures FindQuiz(qs[i := quiz], quiz.id) == Some(i)
    decreases |qs|
  {
    if i > 0 {
      assert qs[i := quiz][1..] == qs[1..][i - 1 := quiz];
      FindQuizAfterSet(qs[1..], i - 1, quiz);
    }
  }
}
