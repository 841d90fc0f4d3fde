/** The documents the handlers build from a request before they insert
    them: the `questionsToInsert` and `responsesToInsert` maps, and the
    field defaults of the create and update handlers. */
module Documents {
  import opened Results
  import opened Text
  import opened Models

  /** One element of the `questions` array of a create or update request.
      A missing string field is the empty string, and a missing, null or
      zero `points` is 0: `q.points || 1` treats them alike. */
  datatype QuestionDraft = QuestionDraft(
    text: string,
    kind: string,
    options: Option<seq<string>>,
    correctAnswer: string,
    points: int)

  /** `q.points || 1`. */
  function PointsOrDefault(p: int): int {
    if p == 0 then 1 else p
  }

  /** Whether the document built from a draft passes the Question schema:
      the enum validator, the required validators on the trimmed text and
      correct answer, and `min: 1` on points. */
  predicate Insertable(d: QuestionDraft) {
    && ParseType(d.kind).Some?
    && !Blank(d.text)
    && !Blank(d.correctAnswer)
    && PointsOrDefault(d.points) >= 1
  }

  predicate AllInsertable(ds: seq<QuestionDraft>) {
    forall i :: 0 <= i < |ds| ==> Insertable(ds[i])
  }

  /** The stored question for the draft at position `index`: order_index is
      the position, options survive only for mcq, points default to 1, and
      the schema's trim setters apply. Whatever passes validation is a
      well-formed question. */
  function Prepare(d: QuestionDraft, quizId: Id, index: nat, id: Id, created: nat): (q: Question)
    requires Insertable(d)
    ensures RequiredTrimmed(q.text) && RequiredTrimmed(q.correctAnswer)
    ensures q.points >= 1 && q.points == PointsOrDefault(d.points)
    ensures q.kind == ParseType(d.kind).value
    ensures q.kind == Mcq ==> q.options == d.options
    ensures q.kind != Mcq ==> q.options == None
    ensures q.text == Trim(d.text) && q.correctAnswer == Trim(d.correctAnswer)
    ensures q.orderIndex >= 0
    ensures QuestionWf(q)
    ensures q.id == id && q.quizId == quizId && q.orderIndex == index && q.created == created
  {
    InsertableTrims(d);
    var kind := ParseType(d.kind).value;
    Question(
      id, quizId, Trim(d.text), kind,
      if kind == Mcq then d.options else None,
      Trim(d.correctAnswer), PointsOrDefault(d.points), index, created)
  }

  /** A draft that passes validation has text and correct answer that stay
      non-empty once trimmed. */
  lemma InsertableTrims(d: QuestionDraft)
    requires Insertable(d)
    ensures RequiredTrimmed(Trim(d.text)) && RequiredTrimmed(Trim(d.correctAnswer))
  {
    TrimIdempotent(d.text);
    TrimIdempotent(d.correctAnswer);
  }

  /** `questions.map((q, index) => ...)` followed by insertMany: consecutive
      fresh ids and creation stamps. */
  function Materialize(ds: seq<QuestionDraft>, quizId: Id, firstId: Id, firstCreated: nat): (r: seq<Question>)
    requires AllInsertable(ds)
  {
    seq(|ds|, i requires 0 <= i < |ds| => Prepare(ds[i], quizId, i, firstId + i, firstCreated + i))
  }

  /** `responses.map(r => ({...r, submission_id}))` followed by insertMany. */
  function Stamp(gs: seq<Graded>, submissionId: Id, firstId: Id, firstCreated: nat): seq<Response> {
    seq(|gs|, i requires 0 <= i < |gs| => Response(firstId + i, submissionId, gs[i], firstCreated + i))
  }

  /** `description || null`: an absent, null or empty description is
      stored as null. */
  function Described(d: Option<string>): (r: Option<string>)
    ensures r != Some([])
    ensures d == Some([]) ==> r == None
    ensures d != Some([]) ==> r == d
  {
    if d == Some([]) then None else d
  }

  /** The update handler's field edits on a found quiz: the title changes
      only when a non-empty title is given (`if (title)`), and the
      description only when the key is present (`description !==
      undefined`). */
  function Edited(q: Quiz, title: string, description: Option<string>): (r: Quiz)
    ensures r.id == q.id && r.created == q.created && r.isPublished == q.isPublished
    ensures title == [] ==> r.title == q.title
    ensures title != [] ==> r.title == Trim(title)
    ensures description.None? ==> r.description == q.description
    ensures description.Some? ==> r.description == Described(description)
  {
    q.(title := if title != [] then Trim(title) else q.title,
       description := if description.Some? then Described(description) else q.description)
  }

  /** An edit keeps a stored quiz valid, except for a non-empty title of
      spaces only, which trims to the empty string that `required` refuses. */
  lemma EditedWf(q: Quiz, title: string, description: Option<string>)
    requires QuizWf(q)
    ensures QuizWf(Edited(q, title, description)) <==> !(title != [] && Blank(title))
  {
    TrimIdempotent(title);
  }

  /** Materialized questions carry order_index 0..N-1 and belong to the quiz. */
  lemma MaterializeShape(ds: seq<QuestionDraft>, quizId: Id, firstId: Id, firstCreated: nat)
    requires AllInsertable(ds)
    ensures |Materialize(ds, quizId, firstId, firstCreated)| == |ds|
    ensures forall i :: 0 <= i < |ds| ==>
      var q := Materialize(ds, quizId, firstId, firstCreated)[i];
      && QuestionWf(q) && q.quizId == quizId && q.orderIndex == i
      && q.id == firstId + i && q.created == firstCreated + i
  {
  }

  /** Materialized questions take consecutive ids and creation stamps. */
  lemma MaterializeStamps(ds: seq<QuestionDraft>, quizId: Id, firstId: Id, firstCreated: nat)
    requires AllInsertable(ds)
    ensures |Materialize(ds, quizId, firstId, firstCreated)| == |ds|
    ensures forall i :: 0 <= i < |ds| ==>
      Materialize(ds, quizId, firstId, firstCreated)[i].id == firstId + i
      && Materialize(ds, quizId, firstId, firstCreated)[i].created == firstCreated + i
  {
  }

  /** The inserted question at position i carries the values the map
      builds from draft i: trimmed text and answer, the parsed type,
      options only for mcq, and `points || 1`. */
  lemma MaterializeValues(ds: seq<QuestionDraft>, quizId: Id, firstId: Id, firstCreated: nat)
    requires AllInsertable(ds)
    ensures forall i :: 0 <= i < |ds| ==>
      var q := Materialize(ds, quizId, firstId, firstCreated)[i];
      && q.text == Trim(ds[i].text) && q.correctAnswer == Trim(ds[i].correctAnswer)
      && q.kind == ParseType(ds[i].kind).value
      && q.options == (if ParseType(ds[i].kind) == Some(Mcq) then ds[i].options else None)
      && q.points == PointsOrDefault(ds[i].points)
  {
  }

  /** Every stamped response belongs to the submission it was stamped with. */
  lemma StampOwner(gs: seq<Graded>, submissionId: Id, firstId: Id, firstCreated: nat)
    ensures forall r :: r in Stamp(gs, submissionId, firstId, firstCreated) ==> r.submissionId == submissionId
  {
    var rs := Stamp(gs, submissionId, firstId, firstCreated);
    forall r | r in rs ensures r.submissionId == submissionId {
      var i :| 0 <= i < |rs| && rs[i] == r;
    }
  }

}
