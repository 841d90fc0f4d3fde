/** The four stored entities and the constraints their Mongoose schemas
    place on them: Quiz, Question, QuizSubmission and QuestionResponse. */
module Models {
  import opened Results
  import opened Text

  /** An ObjectId: opaque, unique, handed out by the store. */
  type Id = nat

  /** The values the question_type enum validator admits. */
  datatype QuestionType = Mcq | TrueFalse | TextEntry

  function TypeName(t: QuestionType): string {
    match t
    case Mcq => "mcq"
    case TrueFalse => "true_false"
    case TextEntry => "text"
  }

  /** The enum validator: a raw question_type string is accepted only when
      it is one of the three names. */
  function ParseType(s: string): Option<QuestionType> {
    if s == "mcq" then Some(Mcq)
    else if s == "true_false" then Some(TrueFalse)
    else if s == "text" then Some(TextEntry)
    else None
  }

  /** The validator accepts exactly the three names, each as its own type. */
  lemma ParseTypeInverse(s: string, t: QuestionType)
    ensures ParseType(s) == Some(t) <==> s == TypeName(t)
  {
  }

  /** `created` stands for the createdAt timestamp: a counter that grows
      with every record the store writes. */
  datatype Quiz = Quiz(
    id: Id,
    title: string,
    description: Option<string>,
    isPublished: bool,
    created: nat)

  datatype Question = Question(
    id: Id,
    quizId: Id,
    text: string,
    kind: QuestionType,
    options: Option<seq<string>>,
    correctAnswer: string,
    points: int,
    orderIndex: int,
    created: nat)

  /** The graded part of a QuestionResponse, as the grading loop builds it
      before the submission id is known. */
  datatype Graded = Graded(
    questionId: Id,
    userAnswer: string,
    isCorrect: bool,
    pointsEarned: int)

  datatype Response = Response(
    id: Id,
    submissionId: Id,
    graded: Graded,
    created: nat)

  datatype Submission = Submission(
    id: Id,
    quizId: Id,
    participantName: string,
    score: int,
    totalPoints: int,
    created: nat)

  /** A String path declared `required: true, trim: true`: Mongoose trims
      the value when it is set, and the required validator then rejects
      the empty string. */
  predicate RequiredTrimmed(s: string) {
    s == Trim(s) && s != []
  }

  /** A stored quiz. The title is required and trimmed; the description is
      never the empty string, because both handlers store `description ||
      null`. */
  predicate QuizWf(q: Quiz) {
    RequiredTrimmed(q.title) && q.description != Some([])
  }

  /** A stored question. Text and correct answer are required and trimmed,
      points are at least 1, and the handlers keep options only for mcq. */
  predicate QuestionWf(q: Question) {
    && RequiredTrimmed(q.text)
    && RequiredTrimmed(q.correctAnswer)
    && q.points >= 1
    && q.orderIndex >= 0
    && (q.kind != Mcq ==> q.options == None)
  }

  /** A graded response: the answer is stored trimmed and the points earned
      are never negative. That they are the question's points or nothing is
      stated against the question, in Grading.GradedAreWellFormed. */
  predicate GradedWf(g: Graded) {
    g.userAnswer == Trim(g.userAnswer) && g.pointsEarned >= 0
  }

  /** What the QuestionResponse schema as written also demands: user_answer
      is required, so the empty string is refused. */
  predicate ResponseSchemaAccepts(g: Graded) {
    RequiredTrimmed(g.userAnswer)
  }

  /** A stored submission: the name is required and trimmed, and the score
      lies between 0 and the total points. */
  predicate SubmissionWf(s: Submission) {
    RequiredTrimmed(s.participantName) && 0 <= s.score <= s.totalPoints
  }
}
