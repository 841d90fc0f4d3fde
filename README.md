# Quiz server: routes, grading and result assembly in Dafny

This project models the quiz server's core. Quizzes are authored with
ordered questions and published. Participants submit answers, which are
graded against each question's correct answer. A submission's result can be
read back, joined with its quiz and its questions. The server keeps four
MongoDB collections through Mongoose models: `Quiz`, `Question`,
`QuizSubmission` and `QuestionResponse`.

Layout, following the program's structure:

- `results.dfy` (`Results`): `Option`, `Result` and the three ways a route
  fails. `Validation` is a 400, `NotFound` a 404, and `Internal` an
  exception caught by the route's `catch` block, a 500.
- `text.dfy` (`Text`): JavaScript's `trim` (the ECMAScript white-space and
  line-terminator set) and `toLowerCase` restricted to ASCII.
- `models.dfy` (`Models`): the four records and what their schemas accept.
  This covers the `required` and `trim` string paths, `min: 1` on points and
  the `question_type` enum.
- `documents.dfy` (`Documents`): the documents the handlers build before
  they insert them. These are the `questionsToInsert` and
  `responsesToInsert` maps, plus `description || null` and the update
  handler's field edits.
- `queries.dfy` (`Queries`): the store queries, as functions on the
  collections in insertion order. These are find by id, find by field,
  delete by field, and the two sorts.
- `grading.dfy` (`Grading`): the grading loop of the submit handler, as a
  method with loop invariants. It is specified by `GradeAll`, `SumPoints`
  and `SumEarned`.
- `integrity.dfy` (`Integrity`): the database as a value `Db`, its
  elementary writes, and the invariant `Consistent`. It combines:
  - fresh ids and creation stamps;
  - creation order;
  - records the schemas accept;
  - no dangling references;
  - `order_index` equal to the position within the quiz;
  - each submission's score equal to the sum of its responses' points.

  Each write comes with a lemma that it keeps the invariant.
- `quiz_routes.dfy` (`QuizRoutes`): every handler of the quiz router, as a
  function from the database and the request to the new database and the
  answer. The lemmas state what each handler promises. The submit handler
  appears twice: `Submit` is the corrected handler, which stores a response
  for every question, and `SubmitAsWritten` is the code as written, with
  its counterexample (see Findings).
- `store.dfy` (`Store`): the router running against the database. It is
  the class `QuizStore`, whose fields are the four collections. Its handler
  methods perform the writes one database call at a time, in the routes'
  order. Each is proved to leave the fields exactly as the corresponding
  `QuizRoutes` function says, and to keep `Consistent`. Its `Submit`
  follows the corrected handler.
- `submission_routes.dfy` (`SubmissionRoutes`): the submission detail
  handler. It reads a stored submission, its quiz's title and its responses
  populated with their questions.

Things the model fixes as it fixes them in the code:

- A request field that is absent reads as the empty string.
- A `questions` value that is absent or not an array reads as `None`.
- An `answers` value that is absent, null or not an object also reads as
  `None`.
- ObjectIds are naturals handed out from a counter. `createdAt` is a second
  counter that grows with every record written.

Two places where the code's own evidence points one way and its behaviour
goes another:

- **Blank title on update.** The create handler refuses a missing or blank
  title with 400 (server/routes/quizRoutes.js:63-65). The update handler
  tests only `if (title)` (line 106), so a title of spaces is accepted and
  trimmed to `""`. `quiz.save()` then fails the `required` validator, and
  the handler answers 500 without writing anything. An empty title is not
  a validation error: the handler treats it as not supplied. The model
  follows the code here; see `QuizRoutes.UpdateEditsQuiz`.
- **Unanswered questions on submit.** The grading loop reads a missing
  answer as `''` (`answers[...] || ''`, line 213) and grades it incorrect,
  so unanswered questions are evidently meant to be tolerated and stored.
  The `QuestionResponse` schema makes `user_answer` required, so the code
  as written refuses the batch after the submission was saved (see
  Findings). Here the model holds both: `QuizRoutes.SubmitAsWritten` is
  the handler as written, and `QuizRoutes.Submit` is the corrected handler,
  which stores every response. The members built on the corrected handler
  are listed under Findings.

The handlers are not atomic, and the model keeps their partial writes. An
invalid question in a batch makes `insertMany` fail and the handler answer
500:

- on create, after the quiz was saved;
- on update, after the old questions were deleted.

## Model

| member | source | states |
|---|---|---|
| Text.Trim | server/routes/quizRoutes.js:213 | the trimmed string is empty or starts and ends with a non-space character |
| Text.TrimIsInfix | server/routes/quizRoutes.js:68 | trim cuts only space characters, and only from the two ends: the result is an infix with all-space prefix and suffix |
| Text.BlankIffAllSpace | server/routes/quizRoutes.js:63-65 | the create handler's missing-or-blank title test holds exactly of strings made only of space characters |
| Text.TrimIdempotent | server/models/Quiz.js:4-8 | the schema's trim setter applied after the route's trim changes nothing |
| Text.TrimIgnoresPadding | server/routes/quizRoutes.js:213 | spaces added at either end never change what trim yields |
| Text.TrimStartShape | server/routes/quizRoutes.js:213 | trimming the start keeps a suffix and cuts only spaces |
| Text.TrimEndShape | server/routes/quizRoutes.js:213 | trimming the end keeps a prefix and cuts only spaces |
| Text.ToLower | server/routes/quizRoutes.js:214 | lower-casing keeps the length |
| Text.ToLowerAt | server/routes/quizRoutes.js:214 | lower-casing maps each character on its own |
| Text.ToLowerIdempotent | server/routes/quizRoutes.js:214 | lower-casing twice is lower-casing once |
| Text.ToLowerEmpty | server/routes/quizRoutes.js:214 | only the empty string lower-cases to the empty string |
| Models.ParseTypeInverse | server/models/Question.js:14-18 | the enum validator accepts exactly "mcq", "true_false" and "text", each as its own type |
| Documents.Prepare | server/routes/quizRoutes.js:77-85 | a draft that passes validation becomes a well-formed question with the given id, quiz and order_index, the trimmed text and correct answer, the parsed type, the draft's options for mcq and none otherwise, and `points` or 1 when it is missing or 0 |
| Documents.InsertableTrims | server/models/Question.js:9-27 | text and correct answer of an accepted draft stay non-empty once trimmed |
| Documents.Described | server/routes/quizRoutes.js:69 | an empty description is stored as null, and every other description (absent or non-empty) is kept |
| Documents.Edited | server/routes/quizRoutes.js:106-107 | the title changes only for a non-empty title, the description only when supplied, and id, stamp and publish flag never change |
| Documents.EditedWf | server/routes/quizRoutes.js:106-109 | an edit keeps a stored quiz valid unless the title is non-empty and only spaces |
| Documents.MaterializeShape | server/routes/quizRoutes.js:77-87 | the inserted questions are one per draft, well formed, of that quiz, with order_index 0..N-1 and consecutive fresh ids |
| Documents.MaterializeValues | server/routes/quizRoutes.js:77-85 | the inserted question at position i carries draft i's trimmed text and answer, its parsed type, its options only for mcq, and its points or 1 |
| Documents.StampOwner | server/routes/quizRoutes.js:239-242 | every stamped response belongs to the saved submission |
| Grading.GradeAll | server/routes/quizRoutes.js:211-226 | one response per question |
| Grading.Grade | server/routes/quizRoutes.js:207-226 | the grading loop returns one graded response per question in order, the total of all points, and the score as the sum of the points earned |
| Grading.GradeAllAt | server/routes/quizRoutes.js:211-225 | the response at position i is the grade of question i |
| Grading.ScoreWithinTotal | server/routes/quizRoutes.js:207-218 | with no negative points, 0 <= score <= total |
| Grading.FullScoreIffAllCorrect | server/routes/quizRoutes.js:212-218 | with points >= 1, the score reaches the total exactly when every answer is correct |
| Grading.GradedAreWellFormed | server/routes/quizRoutes.js:213-225 | each response stores its answer trimmed, names its question, and earns the question's points when correct and 0 otherwise |
| Grading.MissingAnswerIncorrect | server/routes/quizRoutes.js:213-214 | a question absent from the answers is graded incorrect with an empty answer and 0 points |
| Grading.PaddingIgnored | server/routes/quizRoutes.js:213 | spaces around an answer do not change its grade |
| Grading.CaseIgnored | server/routes/quizRoutes.js:214 | answers equal once trimmed and lower-cased get the same correctness and points |
| Grading.AcceptedAt | models/QuestionResponse.js:14-18 | a response passes the user_answer validator exactly when its question was answered with more than spaces |
| Grading.AnswersAccepted | models/QuestionResponse.js:14-18 | all responses pass exactly when no question is unanswered or answered with spaces only |
| Queries.FindQuiz | server/routes/quizRoutes.js:36 | findById yields the position of a quiz with that id, and nothing exactly when no quiz has it |
| Queries.PublishedOf | server/routes/quizRoutes.js:12 | the query returns exactly the published quizzes |
| Queries.NewestFirst | server/routes/quizRoutes.js:13 | the createdAt-descending sort reverses the creation order and is a permutation |
| Queries.QuizzesExcept | server/routes/quizRoutes.js:155 | findByIdAndDelete leaves exactly the quizzes with other ids |
| Queries.QuestionsOf | server/routes/quizRoutes.js:49 | the query returns exactly the quiz's questions |
| Queries.QuestionsNotOf | server/routes/quizRoutes.js:114 | deleteMany leaves exactly the other quizzes' questions |
| Queries.FindQuestion | routes/submissionRoutes.js:22 | populate finds a question with that id, and nothing exactly when none is stored |
| Queries.InsertByOrder | server/routes/quizRoutes.js:50 | one insertion step of the stable sort adds exactly that question |
| Queries.SortByOrder | server/routes/quizRoutes.js:50 | the order_index sort is a permutation |
| Queries.SortByOrderSorted | server/routes/quizRoutes.js:50 | the order_index sort is sorted |
| Queries.SortOfSorted | server/routes/quizRoutes.js:199-200 | sorting a list already in order_index order returns it unchanged |
| Queries.SubmissionsNotOf | server/routes/quizRoutes.js:153 | deleteMany leaves exactly the other quizzes' submissions |
| Queries.FindSubmission | routes/submissionRoutes.js:12 | findById yields a submission with that id, and nothing exactly when none is stored |
| Queries.ResponsesOfMembers | routes/submissionRoutes.js:21 | the query returns exactly the responses of that submission |
| Queries.ResponsesNotIn | server/routes/quizRoutes.js:152 | the `$in` delete leaves exactly the responses of the other submissions |
| Queries.ResponsesOfOrdered | routes/submissionRoutes.js:21-23 | a submission's responses come in createdAt order |
| Integrity.SortedQuestionsOf | server/routes/quizRoutes.js:199-200 | in a consistent store a quiz's questions are already in order_index order |
| Integrity.NoQuestionsForFresh | server/routes/quizRoutes.js:76-87 | a quiz that was just saved has no questions yet |
| Integrity.AddQuizKeeps | server/routes/quizRoutes.js:67-73 | saving a fresh, valid quiz keeps the store consistent |
| Integrity.SetQuizKeeps | server/routes/quizRoutes.js:109 | saving a stored quiz again with the same id keeps the store consistent |
| Integrity.DropQuestionsKeeps | server/routes/quizRoutes.js:114 | deleting a quiz's questions keeps the store consistent |
| Integrity.DropQuestionsLists | server/routes/quizRoutes.js:114 | after the delete that quiz has no questions, and the others keep theirs |
| Integrity.AddQuestionsLists | server/routes/quizRoutes.js:87 | insertMany appends the materialised questions to that quiz's list only |
| Integrity.AddQuestionsKeeps | server/routes/quizRoutes.js:128 | inserting a valid batch for a quiz with no questions keeps the store consistent |
| Integrity.AddSubmissionKeeps | server/routes/quizRoutes.js:229-244 | saving a valid submission together with all its graded responses, as the corrected handler does, keeps the store consistent, scores included |
| Integrity.AddSubmissionKeepsOthers | server/routes/quizRoutes.js:236-244 | saving a submission changes no earlier submission's responses |
| Integrity.CascadeKeeps | server/routes/quizRoutes.js:146-155 | the delete cascade keeps the store consistent and leaves no dangling reference |
| QuizRoutes.Published | server/routes/quizRoutes.js:10-19 | GET / lists exactly the published quizzes |
| QuizRoutes.AllQuizzes | server/routes/quizRoutes.js:22-31 | GET /all lists exactly the stored quizzes |
| QuizRoutes.GetQuiz | server/routes/quizRoutes.js:34-44 | GET /:id answers the quiz with that id, or 404 exactly when there is none, and never 500 |
| QuizRoutes.QuizQuestions | server/routes/quizRoutes.js:47-56 | GET /:id/questions lists exactly the quiz's questions |
| QuizRoutes.ListingsNewestFirst | server/routes/quizRoutes.js:13 | both quiz listings have strictly decreasing creation stamps |
| QuizRoutes.QuizQuestionsSorted | server/routes/quizRoutes.js:50 | the questions come back sorted by order_index |
| QuizRoutes.QuizQuestionsIndexed | server/routes/quizRoutes.js:47-56 | in a consistent store the questions come back as inserted, numbered 0, 1, 2, ..., and an unknown quiz has none |
| QuizRoutes.CreateSavesQuiz | server/routes/quizRoutes.js:59-94 | 400 exactly for a blank title, with nothing written; otherwise the unpublished quiz with the trimmed title is saved, and it is the answer |
| QuizRoutes.CreateStoresQuestions | server/routes/quizRoutes.js:76-88 | a valid list is stored under the new quiz with defaults and order_index 0..N-1; 500 exactly for a list with an invalid question, with the quiz left without questions; no other quiz's questions change |
| QuizRoutes.CreateKeeps | server/routes/quizRoutes.js:59-94 | create keeps the store consistent |
| QuizRoutes.UpdateNotFound | server/routes/quizRoutes.js:101-104 | 404 exactly for an unknown quiz, with nothing written |
| QuizRoutes.UpdateEditsQuiz | server/routes/quizRoutes.js:106-109 | a non-empty title of spaces is a 500 with nothing written; otherwise the edited quiz is stored and answered unless the batch is refused, and no other quiz, submission or response changes |
| QuizRoutes.UpdateReplacesQuestions | server/routes/quizRoutes.js:111-130 | a supplied list replaces the quiz's questions, numbered from 0; a refused batch leaves none; an omitted list keeps them; other quizzes' questions never change |
| QuizRoutes.UpdateRetiresQuestions | server/routes/quizRoutes.js:114-128 | once a list is supplied, no question id the quiz had before is stored any more |
| QuizRoutes.UpdateKeeps | server/routes/quizRoutes.js:97-136 | update keeps the store consistent |
| QuizRoutes.DeleteNotFound | server/routes/quizRoutes.js:141-144 | 404 exactly for an unknown quiz, with nothing written; success otherwise |
| QuizRoutes.DeleteRemovesQuiz | server/routes/quizRoutes.js:146-155 | afterwards the quiz, its questions, its submissions and their responses are gone |
| QuizRoutes.DeleteKeepsOthers | server/routes/quizRoutes.js:146-155 | the other quizzes, their questions, their submissions and those submissions' responses stay |
| QuizRoutes.DeleteKeeps | server/routes/quizRoutes.js:139-161 | delete keeps the store consistent |
| QuizRoutes.ToggleFlips | server/routes/quizRoutes.js:164-178 | 404 exactly for an unknown quiz; otherwise only that quiz's is_published flips, moving it into or out of the published listing, and it never answers 500 |
| QuizRoutes.ToggleTwice | server/routes/quizRoutes.js:171-172 | toggling twice restores the store |
| QuizRoutes.ToggleKeeps | server/routes/quizRoutes.js:164-178 | toggle keeps the store consistent |
| QuizRoutes.SubmitRefusals | server/routes/quizRoutes.js:185-204 | 400 exactly for a blank name, missing answers or a quiz without questions; 404 exactly for an unknown quiz otherwise; a refusal writes nothing; the corrected handler never answers 500 (the handler as written does, see Findings) |
| QuizRoutes.SubmitGrades | server/routes/quizRoutes.js:199-226 | the questions are graded in order_index order, each worth at least one point, every response is well formed, and 0 <= score <= total |
| QuizRoutes.SubmitRecords | server/routes/quizRoutes.js:228-246 | for the corrected handler, success answers the new id; the submission stores the trimmed name, the score and the total; its responses are the grades in order; nothing earlier changes |
| QuizRoutes.SubmitKeeps | server/routes/quizRoutes.js:181-250 | the corrected submit keeps the store consistent, so every stored score equals the sum of its responses' points |
| QuizRoutes.AsWrittenDiffersOnBlankAnswer | models/QuestionResponse.js:14-18 | the handler as written departs from the corrected one exactly when an accepted submission leaves a question unanswered or answered with spaces |
| QuizRoutes.AsWrittenOrphansSubmission | server/routes/quizRoutes.js:236-244 | when the handler as written fails at the responses, a scored submission without responses is stored |
| QuizRoutes.SumsQuestions | server/routes/quizRoutes.js:199-200 | the example quiz's questions, as the handler reads them |
| QuizRoutes.SumsGrades | server/routes/quizRoutes.js:211-226 | the example answers grade as 2+2 right and 3+3 unanswered |
| QuizRoutes.SumsTotals | server/routes/quizRoutes.js:207-218 | the example is worth 5 points and the answers earn 2 |
| QuizRoutes.SumsRequest | models/QuestionResponse.js:14-18 | the example request passes the route's checks, and its second response fails user_answer |
| QuizRoutes.SumsCounterexample | server/routes/quizRoutes.js:236-244 | the handler as written answers 500 for the example, and stores a 2-point submission with no responses, breaking the score invariant |
| QuizRoutes.SumsCorrected | server/routes/quizRoutes.js:181-250 | the corrected handler accepts the same request |
| Store.QuizStore.InsertQuiz | server/routes/quizRoutes.js:73 | save appends the quiz with a fresh id and stamp |
| Store.QuizStore.SaveQuiz | server/routes/quizRoutes.js:109 | save replaces the stored quiz in place |
| Store.QuizStore.DeleteQuestionsOf | server/routes/quizRoutes.js:114 | deleteMany removes the quiz's questions |
| Store.QuizStore.InsertQuestions | server/routes/quizRoutes.js:128 | insertMany appends the batch with fresh ids and stamps |
| Store.QuizStore.InsertSubmission | server/routes/quizRoutes.js:236-244 | saves the submission, then its stamped responses |
| Store.QuizStore.DeleteQuizCascade | server/routes/quizRoutes.js:146-155 | the four deletions, in the handler's order |
| Store.QuizStore.Create | server/routes/quizRoutes.js:59-94 | the handler's writes leave the store as QuizRoutes.Create says, consistent, with its answer |
| Store.QuizStore.Update | server/routes/quizRoutes.js:97-136 | the handler's writes leave the store as QuizRoutes.Update says, consistent, with its answer |
| Store.QuizStore.Delete | server/routes/quizRoutes.js:139-161 | the handler's writes leave the store as QuizRoutes.Delete says, consistent, with its answer |
| Store.QuizStore.TogglePublish | server/routes/quizRoutes.js:164-178 | the handler's writes leave the store as QuizRoutes.TogglePublish says, consistent, with its answer |
| Store.QuizStore.Submit | server/routes/quizRoutes.js:181-250 | the checks, the grading loop and the two writes leave the store as the corrected QuizRoutes.Submit says, consistent, with its answer |
| SubmissionRoutes.ViewsShape | routes/submissionRoutes.js:21-37 | the join succeeds exactly when every response's question is stored, then shows one entry per response, in order, from that response and its question |
| SubmissionRoutes.ViewsEarned | routes/submissionRoutes.js:27-37 | the points shown add up to the points stored |
| SubmissionRoutes.DetailNotFound | routes/submissionRoutes.js:12-18 | 404 exactly when no submission has the id; otherwise a detail or 500 |
| SubmissionRoutes.DetailInternal | routes/submissionRoutes.js:21-37 | with every submission's quiz stored, 500 exactly when a response refers to a question that is gone |
| SubmissionRoutes.DetailShows | routes/submissionRoutes.js:10-57 | a detail shows the submission's fields and its quiz's title, and its responses in creation order, each with its question; in a consistent store (which the corrected submit keeps and the one as written can break) the score shown is the sum of the points shown and lies within the total |
| SubmissionRoutes.StampedViews | routes/submissionRoutes.js:27-37 | freshly graded responses show their grades with the questions they were graded against |
| SubmissionRoutes.SubmitThenDetail | routes/submissionRoutes.js:10-57 | right after a submit the corrected handler accepts, its detail shows the trimmed name, score, total and the quiz title, with one entry per question in order_index order |
| SubmissionRoutes.DetailAfterAdd | routes/submissionRoutes.js:10-57 | a submission saved with responses graded from stored questions has a detail showing exactly those grades and questions |
| SubmissionRoutes.ReplacedQuestionsBreakDetail | routes/submissionRoutes.js:27-28 | once an update replaces a quiz's questions, the detail of an earlier submission that answered one of them answers 500 |

The handler functions themselves carry no contract of their own; the rows
above state what they promise. `QuizRoutes.Create` is described by
`CreateSavesQuiz`, `CreateStoresQuestions` and `CreateKeeps`;
`QuizRoutes.Update` by `UpdateNotFound`, `UpdateEditsQuiz`,
`UpdateReplacesQuestions`, `UpdateRetiresQuestions` and `UpdateKeeps`;
`QuizRoutes.Delete` by `DeleteNotFound`, `DeleteRemovesQuiz`,
`DeleteKeepsOthers` and `DeleteKeeps`; `QuizRoutes.TogglePublish` by
`ToggleFlips`, `ToggleTwice` and `ToggleKeeps`; `QuizRoutes.Submit` by
`SubmitRefusals`, `SubmitGrades`, `SubmitRecords` and `SubmitKeeps`;
`QuizRoutes.SubmitAsWritten` by `AsWrittenDiffersOnBlankAnswer`,
`AsWrittenOrphansSubmission` and `SumsCounterexample`;
`SubmissionRoutes.GetDetail` by `DetailNotFound`, `DetailInternal`,
`DetailShows`, `DetailAfterAdd`, `SubmitThenDetail` and
`ReplacedQuestionsBreakDetail`; `Grading.GradeOne` by `GradeAllAt`,
`GradedAreWellFormed`, `MissingAnswerIncorrect`, `PaddingIgnored`,
`CaseIgnored` and `AcceptedAt`.

## Left out

- Text.ToLower: lower-cases ASCII letters only. JavaScript's `toLowerCase` maps all of Unicode, which the model does not include.
- Request bodies holding non-string JSON values (numbers, arrays, objects where strings are expected) are not modelled. Every request field is a string, an optional string or a list.
- An id that is not a valid ObjectId makes Mongoose throw a CastError, which is a 500. Ids here are naturals, so that path is not modelled.
- Timestamps are a counter. `updatedAt`, real clock time and the ISO rendering of `submitted_at` are left out. Responses from one `insertMany` get consecutive stamps. In MongoDB they can share a millisecond, and then their sort order is unspecified.
- Both `createdAt` sorts rely on the collections being kept in creation order, which holds because every write appends with a fresh stamp.
- Concurrent requests, store failures (network, disk) and partial writes caused by them are not modelled. Each handler runs to completion on its own.
- HTTP and JSON shaping are left out, and only the JSON fields the routes use are modelled. This covers status codes beyond the three error kinds, error messages, `select('-__v')`, `toString()` of ids and the 201 response body.
- Server setup, the database connection, middleware and route mounting (`server.js`) are not part of this model. The store starts empty.
- The listing and detail handlers read the store without changing it. They are functions over the store's contents (`QuizRoutes.Published`, `SubmissionRoutes.GetDetail`) rather than `QuizStore` methods.
- Grading.FullScoreIffAllCorrect, Grading.ScoreWithinTotal: `points` is a Mongoose `Number` (server/models/Question.js:28-33), so a fractional value such as 2.5 passes `min: 1`, and the handler adds points in floating point (server/routes/quizRoutes.js:212, 217). The model takes points as unbounded integers; for fractional points or sums beyond 2^53 the floating-point totals can round, and these lemmas are not claimed for them.
- Queries.SortByOrder: MongoDB gives no order among questions with equal `order_index`. The model fixes the stable order. In a consistent store the questions of a quiz have distinct `order_index` values (`Integrity.Indexed`), so the choice shows only in stores that break the invariant.
- The `options` array of an mcq question is stored as given. Mongoose's casting of its elements to strings is not modelled.

## Findings

| source | as written | input that shows it | evidently intended | confidence | as-written member | corrected member |
|---|---|---|---|---|---|---|
| models/QuestionResponse.js:14-18 | `user_answer` is `required`. The submit handler stores `''` for an unanswered question, or for one answered with spaces (server/routes/quizRoutes.js:213). `QuestionResponse.insertMany` then rejects the whole batch after the submission was saved (server/routes/quizRoutes.js:236-244). The client gets a 500, and a scored submission without responses stays in the store. | POST /:id/submit on a quiz with questions 2+2 (2 points) and 3+3 (3 points), body `{"participant_name": "Ada", "answers": {"<id of 2+2>": " 4 "}}` | every question gets a response, an unanswered one with an empty answer graded incorrect, and the handler answers 201 | not executed | QuizRoutes.SumsCounterexample | QuizRoutes.SubmitKeeps |

The corrected half is the handler `QuizRoutes.Submit`, and every member built on it models the corrected behaviour, not the code as written: `QuizRoutes.SubmitRefusals` (its "never 500"), `QuizRoutes.SubmitGrades`, `QuizRoutes.SubmitRecords`, `QuizRoutes.SubmitKeeps`, `QuizRoutes.SumsCorrected`, `Store.QuizStore.Submit`, `SubmissionRoutes.SubmitThenDetail`, and the `Scored` part of `Integrity.Consistent`, on which `SubmissionRoutes.DetailShows` relies for "score shown = sum shown". The code as written is `QuizRoutes.SubmitAsWritten`; `QuizRoutes.AsWrittenDiffersOnBlankAnswer` proves it agrees with the corrected handler exactly when no answer is blank, and `QuizRoutes.SumsCounterexample` shows it breaking `Scored`.
