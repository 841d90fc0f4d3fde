/** The grading loop of the submit handler: for each question, in the
    order given, trim the participant's answer, compare it with the correct
    answer ignoring case, and accumulate the total points and the score. */
module Grading {
  import opened Results
  import opened Text
  import opened Models

  /** `answers[question._id.toString()] || ''`: a missing key, like an
      empty answer, reads as the empty string. */
  function AnswerFor(answers: map<Id, string>, questionId: Id): string {
    if questionId in answers then answers[questionId] else ""
  }

  /** The response one question gets: the trimmed answer, whether it equals
      the correct answer once both are lower-cased, and the question's
      points when it does. */
  function GradeOne(q: Question, answers: map<Id, string>): Graded {
    var userAnswer := Trim(AnswerFor(answers, q.id));
    var isCorrect := ToLower(userAnswer) == ToLower(q.correctAnswer);
    Graded(q.id, userAnswer, isCorrect, if isCorrect then q.points else 0)
  }

  /** One response per question, in the questions' order. */
  function GradeAll(qs: seq<Question>, answers: map<Id, string>): (gs: seq<Graded>)
    ensures |gs| == |qs|
  {
    if qs == [] then [] else GradeAll(qs[..|qs| - 1], answers) + [GradeOne(qs[|qs| - 1], answers)]
  }

  /** The sum of `points` over a list of questions. */
  function SumPoints(qs: seq<Question>): int {
    if qs == [] then 0 else SumPoints(qs[..|qs| - 1]) + qs[|qs| - 1].points
  }

  /** The sum of `points_earned` over a list of responses. */
  function SumEarned(gs: seq<Graded>): int {
    if gs == [] then 0 else SumEarned(gs[..|gs| - 1]) + gs[|gs| - 1].pointsEarned
  }

  /** The loop of the submit handler. It returns the score, the total points
      and the responses, and they are exactly one graded response per
      question in order, the sum of every question's points, and the sum of
      the points earned. */
  method Grade(questions: seq<Question>, answers: map<Id, string>)
    returns (score: int, totalPoints: int, responses: seq<Graded>)
    ensures responses == GradeAll(questions, answers)
    ensures totalPoints == SumPoints(questions)
    ensures score == SumEarned(responses)
  {
    score, totalPoints, responses := 0, 0, [];
    for i := 0 to |questions|
      invariant totalPoints == SumPoints(questions[..i])
      invariant responses == GradeAll(questions[..i], answers)
      invariant score == SumEarned(responses)
    {
      var question := questions[i];
      GradeStep(questions, answers, i);
      totalPoints := totalPoints + question.points;
      var userAnswer := Trim(AnswerFor(answers, question.id));
      var isCorrect := ToLower(userAnswer) == ToLower(question.correctAnswer);
      if isCorrect {
        score := score + question.points;
      }
      var response := Graded(question.id, userAnswer, isCorrect, if isCorrect then question.points else 0);
      assert response == GradeOne(question, answers);
      EarnedStep(responses, response);
      responses := responses + [response];
    }
    assert questions[..|questions|] == questions;
  }

  /** One more question adds its grade and its points. */
  lemma GradeStep(qs: seq<Question>, answers: map<Id, string>, i: nat)
    requires i < |qs|
    ensures GradeAll(qs[..i + 1], answers) == GradeAll(qs[..i], answers) + [GradeOne(qs[i], answers)]
    ensures SumPoints(qs[..i + 1]) == SumPoints(qs[..i]) + qs[i].points
  {
    assert qs[..i + 1][..i] == qs[..i];
  }

  lemma EarnedStep(gs: seq<Graded>, g: Graded)
    ensures SumEarned(gs + [g]) == SumEarned(gs) + g.pointsEarned
  {
    assert (gs + [g])[..|gs|] == gs;
  }

  /** The response at position i is the grade of question i. */
  lemma {:induction false} GradeAllAt(qs: seq<Question>, answers: map<Id, string>, i: nat)
    requires i < |qs|
    ensures GradeAll(qs, answers)[i] == GradeOne(qs[i], answers)
    decreases |qs|
  {
    if i < |qs| - 1 {
      GradeAllAt(qs[..|qs| - 1], answers, i);
    }
  }

  lemma {:induction false} GradeAllPrefix(qs: seq<Question>, answers: map<Id, string>, n: nat)
    requires n <= |qs|
    ensures GradeAll(qs, answers)[..n] == GradeAll(qs[..n], answers)
    decreases |qs|
  {
    if n < |qs| {
      assert qs[..|qs| - 1][..n] == qs[..n];
      GradeAllPrefix(qs[..|qs| - 1], answers, n);
    } else {
      assert qs[..n] == qs;
    }
  }

  /** With no negative points, the score lies between 0 and the total. */
  lemma {:induction false} ScoreWithinTotal(qs: seq<Question>, answers: map<Id, string>)
    requires forall i :: 0 <= i < |qs| ==> qs[i].points >= 0
    ensures 0 <= SumEarned(GradeAll(qs, answers)) <= SumPoints(qs)
    decreases |qs|
  {
    if qs != [] {
      var n := |qs| - 1;
      GradeAllPrefix(qs, answers, n);
      ScoreWithinTotal(qs[..n], answers);
    }
  }

  /** When every question is worth at least one point, the score reaches the
      total exactly when every answer is correct. */
  lemma FullScoreIffAllCorrect(qs: seq<Question>, answers: map<Id, string>)
    requires forall i :: 0 <= i < |qs| ==> qs[i].points >= 1
    ensures SumEarned(GradeAll(qs, answers)) == SumPoints(qs)
            <==> forall i :: 0 <= i < |qs| ==> GradeAll(qs, answers)[i].isCorrect
  {
    GradedAreWellFormed(qs, answers);
    FullIffAllEarned(GradeAll(qs, answers), qs);
  }

  /** The same on any responses that earn each question's points exactly
      when correct. */
  lemma {:induction false} FullIffAllEarned(gs: seq<Graded>, qs: seq<Question>)
    requires |gs| == |qs|
    requires forall i :: 0 <= i < |qs| ==>
      qs[i].points >= 1 && gs[i].pointsEarned == (if gs[i].isCorrect then qs[i].points else 0)
    ensures SumEarned(gs) == SumPoints(qs) <==> forall i :: 0 <= i < |gs| ==> gs[i].isCorrect
    decreases |gs|
  {
    if gs != [] {
      var n := |gs| - 1;
      assert forall i :: 0 <= i < n ==> gs[..n][i] == gs[i] && qs[..n][i] == qs[i];
      EarnedWithin(gs[..n], qs[..n]);
      FullIffAllEarned(gs[..n], qs[..n]);
    }
  }

  /** Responses that earn each question's points or nothing earn at most
      the total. */
  lemma {:induction false} EarnedWithin(gs: seq<Graded>, qs: seq<Question>)
    requires |gs| == |qs|
    requires forall i :: 0 <= i < |qs| ==>
      qs[i].points >= 0 && gs[i].pointsEarned == (if gs[i].isCorrect then qs[i].points else 0)
    ensures SumEarned(gs) <= SumPoints(qs)
    decreases |gs|
  {
    if gs != [] {
      var n := |gs| - 1;
      assert forall i :: 0 <= i < n ==> gs[..n][i] == gs[i] && qs[..n][i] == qs[i];
      EarnedWithin(gs[..n], qs[..n]);
    }
  }

  /** Every graded response stores its answer trimmed and earns either
      nothing or the question's points. */
  lemma GradedAreWellFormed(qs: seq<Question>, answers: map<Id, string>)
    requires forall i :: 0 <= i < |qs| ==> qs[i].points >= 0
    ensures forall i :: 0 <= i < |qs| ==>
      var g := GradeAll(qs, answers)[i];
      && GradedWf(g) && g.questionId == qs[i].id
      && g.pointsEarned == (if g.isCorrect then qs[i].points else 0)
  {
    forall i | 0 <= i < |qs| {
      TrimIdempotent(AnswerFor(answers, qs[i].id));
    }
  }

  /** A question with no answer in the request is graded incorrect with an
      empty stored answer: stored correct answers are never blank. */
  lemma MissingAnswerIncorrect(q: Question, answers: map<Id, string>)
    requires QuestionWf(q) && q.id !in answers
    ensures GradeOne(q, answers) == Graded(q.id, "", false, 0)
  {
    ToLowerEmpty(q.correctAnswer);
  }

  /** Space characters around an answer do not change how it is graded. */
  lemma PaddingIgnored(q: Question, answers: map<Id, string>, p: string, a: string, s: string)
    requires AllSpace(p) && AllSpace(s)
    requires q.id in answers && answers[q.id] == p + a + s
    ensures GradeOne(q, answers) == GradeOne(q, answers[q.id := a])
  {
    TrimIgnoresPadding(p, a, s);
  }

  /** Answers that agree once trimmed and lower-cased earn the same grade. */
  lemma CaseIgnored(q: Question, a1: map<Id, string>, a2: map<Id, string>)
    requires ToLower(Trim(AnswerFor(a1, q.id))) == ToLower(Trim(AnswerFor(a2, q.id)))
    ensures GradeOne(q, a1).isCorrect == GradeOne(q, a2).isCorrect
    ensures GradeOne(q, a1).pointsEarned == GradeOne(q, a2).pointsEarned
  {
  }

  /** A response has the non-empty answer the QuestionResponse schema
      demands exactly when its question was answered with more than spaces. */
  lemma AcceptedAt(qs: seq<Question>, answers: map<Id, string>, i: nat)
    requires i < |qs|
    ensures ResponseSchemaAccepts(GradeAll(qs, answers)[i]) <==> !Blank(AnswerFor(answers, qs[i].id))
  {
    GradeAllAt(qs, answers, i);
    TrimIdempotent(AnswerFor(answers, qs[i].id));
  }

  /** Whether `QuestionResponse.insertMany` accepts the whole batch. */
  predicate AllAccepted(gs: seq<Graded>) {
    forall i :: 0 <= i < |gs| ==> ResponseSchemaAccepts(gs[i])
  }

  /** So all the responses are accepted exactly when no question is left
      unanswered or answered with spaces only. */
  lemma AnswersAccepted(qs: seq<Question>, answers: map<Id, string>)
    ensures AllAccepted(GradeAll(qs, answers)) <==> (forall q :: q in qs ==> !Blank(AnswerFor(answers, q.id)))
  {
    if AllAccepted(GradeAll(qs, answers)) {
      forall q | q in qs ensures !Blank(AnswerFor(answers, q.id)) {
        var i :| 0 <= i < |qs| && qs[i] == q;
        AcceptedAt(qs, answers, i);
      }
    } else {
      var i :| 0 <= i < |qs| && !ResponseSchemaAccepts(GradeAll(qs, answers)[i]);
      AcceptedAt(qs, answers, i);
      assert qs[i] in qs;
    }
  }
}
