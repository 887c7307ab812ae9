# Academy progress engine — a Dafny model

This project models the learner progress engine of the driver-induction academy,
a Django application. Learners:

- work through the lessons of a course's modules;
- take a multiple-choice quiz per module;
- sit a final test that a manager reviews.

The engine decides:

- each learner's `ModuleProgress`: its status (not_started, in_progress or
  completed), best score, completion time and last-attempt time;
- whether a module is locked behind earlier mandatory modules;
- when a certificate is issued, and with which number;
- how the dashboard, the submission list and the question importer count things.

The model has these modules:

- `Common`:
  - the `Option` and `Result` wrappers;
  - the integer percentage `int((c / t) * 100)`, stated exactly;
  - the decimal rendering of identifiers.
- `Records`: the records of `academy/models.py` as datatypes, with their
  declared defaults, the `passed` property and the owner of a course assignment.
- `Progress`: the three transitions of a `ModuleProgress` row, each as a
  function from the row before to the row after:
  - recomputation from lesson completion;
  - a quiz attempt;
  - the pass recorded for a reviewed final test.
- `Access`:
  - the module lock, as a predicate and as the loop that checks it;
  - the dashboard's per-course percentage.
- `Scoring`:
  - quiz marking and final-test marking, as loops proved against per-question
    specification functions;
  - the two correctness rules and how they relate;
  - the answer snapshots stored with a submission;
  - the summary shown on the manager's submission list.
- `Certificates`: the get-or-create of a certificate and the
  `COZY-{course}-{module}-{user}-{seconds}` number. The number determines its
  four parts, so well-formed certificates never share a number.
- `Store`: class `ProgressStore`, which holds the progress, lesson-progress,
  certificate and submission tables as maps keyed by (user, module),
  (user, lesson), (user, module) and submission id. Being maps, the tables hold
  at most one row per key, matching the uniqueness constraints of the models.
  Its methods are the request handlers that change those tables:
  - complete a lesson;
  - open a module page;
  - submit a quiz;
  - submit a final test;
  - save a submission;
  - the manager's pass.

  Each method updates the loaded row field by field, as the source does, and is
  proved equal to the pure transitions of `Progress` and `Certificates`.
- `Text`:
  - Python's `in`, `split` and `join`;
  - the YouTube id taken from a lesson's video URL;
  - the slug of a new module;
  - the admin's shortened question text.
- `Importer`: the JSON question import. It covers:
  - detecting the fixture format;
  - the fixture walk, with its map from question pk to created question;
  - the custom-format walk, with its skip rule.

  Python's run-time errors are modelled as an `ImportError` that ends the walk.
  The rows created before the error are kept.

Some behaviours of the source are modelled as written:

- Recomputation from lessons overwrites the stored score. A module passed through
  its quiz therefore drops back to the lesson percentage the next time its page
  is opened (`Progress.RecomputeOverwrites`, `Progress.LessonRecomputeCanRegress`).
- The final test counts an answer as correct only when it is the correct choice
  with the lowest id (`.first()` on the unordered choices orders by primary key). The quiz accepts any choice flagged correct
  (`Scoring.FinalStricterThanQuiz`).
- A choice whose question appears later in a fixture is skipped
  (`Importer.ChoiceBeforeQuestion`).
- The third branch of the YouTube id extraction can never run
  (`Text.ThirdBranchUnreachable`).

Time (`timezone.now()`) is a `now: nat` parameter counted in seconds.

## Model

| member | source | states |
|---|---|---|
| Common.Percent | academy/views.py:68 | the integer percentage p satisfies p·whole ≤ 100·part < (p+1)·whole, i.e. it is the floor of 100·part/whole |
| Common.PercentBounds | academy/views.py:200 | for part ≤ whole the percentage is at most 100, is 100 exactly when part = whole, and is 0 exactly when 100·part < whole |
| Common.NatToStringRoundTrip | academy/views.py:132 | reading back the decimal digits of an identifier gives the identifier |
| Common.NatToStringInjective | academy/views.py:132 | two identifiers with the same decimal text are equal |
| Records.Rank | academy/models.py:79-83 | the three statuses are ordered not_started < in_progress < completed |
| Records.NewModule | academy/models.py:20-27 | a new module has pass mark 80 and is mandatory |
| Records.DefaultProgress | academy/models.py:85-90 | a new progress row is not_started with score 0 and no timestamps, and is not passed for any positive pass mark |
| Records.DefaultLessonProgress | academy/models.py:106-107 | a new lesson row is not completed and has no completion time |
| Records.NewSubmission | academy/models.py:139-174 | a new submission keeps the user, module, time and answers, and is unreviewed, not passed and has no reviewer |
| Records.AssignmentOwner | academy/models.py:230 | the owner is the user when set, else the group; there is none only when both are missing |
| Records.AssignedCourses | academy/views.py:172-175 | a course id is assigned exactly when an assignment gives it to the learner or to one of the learner's groups |
| Records.DashboardCourses | academy/views.py:172-181 | a course is on the dashboard exactly when it is assigned to the learner or a group of theirs and its course row is active |
| Progress.RecomputeFromLessons | academy/views.py:50-85 | no lessons: completed with score 100; otherwise the score is the completion percentage, status not_started iff 0 and completed iff 100; completed_at is kept if set, set to now on completion, cleared otherwise; last attempt is now |
| Progress.LessonScoreInRange | academy/views.py:62-70 | with at most all lessons completed the recomputed score is between 0 and 100 |
| Progress.AllOrNoLessons | academy/views.py:72-81 | all lessons completed gives completed/100, none gives not_started/0 |
| Progress.RecomputeOverwrites | academy/views.py:68-77 | the recomputed row depends on the old row only through its completion time: the old score and status are overwritten |
| Progress.RecomputeIdempotent | academy/views.py:55-83 | recomputing again with the same counts changes only the last-attempt time |
| Progress.LessonRecomputeCanRegress | academy/views.py:72-77 | a completed module whose lesson count grows goes back to in_progress, loses its completion time and its score falls to 50 |
| Progress.ApplyQuizAttempt | academy/views.py:365-379 | the stored score becomes the larger of the old score and the attempt; passed iff that best score reaches the pass mark; on a pass the status is completed and completed_at is set once; otherwise only not_started moves to in_progress and completed_at is unchanged |
| Progress.QuizNeverRegresses | academy/views.py:365-379 | a quiz attempt never moves the status backwards and never un-passes a passed module |
| Progress.BestScoreWins | academy/views.py:366-367 | after any sequence of attempts the stored score is the maximum of the initial score and all attempts |
| Progress.RetakeScenario | academy/views.py:365-379 | 60 on a pass mark of 80 leaves the module in progress and not passed; a retake of 85 completes it with score 85 |
| Progress.ApplyPass | academy/models.py:194-198 | a recorded pass sets completed; the score becomes 100 when it was below 100 and is kept otherwise; an existing completed_at is kept and last attempt is now |
| Progress.PassIdempotent | academy/views.py:827-840 | applying the pass twice gives the same status, score and completion time as applying it once |
| Progress.PassMeetsPassMark | academy/models.py:98-100 | after a pass the row is `passed` for any pass mark of at most 100 |
| Access.CheckAccess | academy/views.py:88-102 | the loop returns true iff every earlier mandatory module of the same course has a progress row meeting its pass mark; on false it names a blocking module |
| Access.FirstModuleOpen | academy/views.py:93-102 | a module with no earlier mandatory module in its course is always open |
| Access.OptionalModulesNeverBlock | academy/views.py:93-96 | rows of optional modules have no influence on the lock |
| Access.AccessMonotone | academy/views.py:98-101 | access, once granted, survives any change that removes no row and lowers no score |
| Access.TwoModuleScenario | academy/views.py:93-101 | a second module stays locked while the first's best score is 60 of 80, and opens at 85 |
| Access.CountPassedAll | academy/views.py:191-198 | the passed count equals the number of modules iff every module is passed |
| Access.CourseProgress | academy/views.py:186-200 | the course figure divides the passed modules by the module count (1 for an empty course), stays at most 100, and is 100 iff the course has modules and all are passed |
| Scoring.FindChoice | academy/views.py:347 | the choice with the posted id is found iff the question has one, and the first such is returned |
| Scoring.LowestCorrect | academy/views.py:507 | a correct choice is found iff one is flagged, and it is the flagged choice with the lowest id, as `.first()` orders the unordered choices by primary key |
| Scoring.QuizCorrectMeans | academy/views.py:345-350 | with unique choice ids, a quiz answer is correct iff the posted id names a choice of this question that is flagged correct |
| Scoring.MarkQuiz | academy/views.py:335-363 | the marking loop fails exactly when a posted id is not a number; otherwise it marks every question in order and counts the correct ones |
| Scoring.FinalCorrectIsQuizCorrect | academy/views.py:511-515 | an answer the final test accepts is also accepted by the quiz rule |
| Scoring.FinalStricterThanQuiz | academy/views.py:507-515 | with two choices flagged correct, picking the second is correct for the quiz and wrong for the final test |
| Scoring.NoCorrectChoiceNeverCorrect | academy/views.py:507-515 | a question with no choice flagged correct is never answered correctly in the final test |
| Scoring.RulesAgreeOnSingleCorrect | academy/views.py:511-515 | with at most one choice flagged correct the quiz and final-test rules agree |
| Scoring.Snapshot | academy/views.py:519-529 | a snapshot carries the question's id, text and explanation, and its correctness is the final-test rule |
| Scoring.SnapshotFields | academy/views.py:500-529 | the selected id is kept iff the posted id is one of the question's choices, and then with that choice's text (else no text); the correct text is present iff a choice is flagged, and is the text of the flagged choice with the lowest id |
| Scoring.FinalScore | academy/views.py:539 | the final-test score is 0 without questions, else the integer percentage, and at most 100 |
| Scoring.MarkFinalTest | academy/views.py:491-539 | the marking loop fails exactly when a posted id is not a number; otherwise it holds one snapshot per question in order, the count of correct ones and the score |
| Scoring.SummaryOf | academy/views.py:791-806 | total is the number of answers and correct + incorrect = total; with answers the percentage is the integer percentage of correct among total, it is 0 for no answers, at most 100, and 100 iff nothing is incorrect |
| Scoring.CountCorrectOfSnapshots | academy/views.py:794 | counting correct snapshots gives the final test's correct count |
| Scoring.SummaryMatchesMarking | academy/views.py:791-806 | the manager's summary of a stored submission shows the correct count and score computed when it was marked |
| Certificates.NumberDetermines | academy/views.py:131-132 | the certificate number determines the course, module, user and issue second |
| Certificates.NumbersUnique | academy/models.py:125 | in a well-formed table two different (user, module) keys have different numbers |
| Certificates.IssueIfNeeded | academy/views.py:126-140 | an existing certificate is returned and nothing changes; otherwise exactly one is added under (user, module) with the score, time and composed number, and the others are kept |
| Certificates.IssueKeepsWellFormed | academy/models.py:125-128 | issuing keeps every certificate under its own key with its own number |
| Certificates.IssueTwiceSame | academy/views.py:126-128 | a second issue, with any score and time, creates nothing and returns the first certificate |
| Store.LessonsOf | academy/views.py:52 | the lessons of a module are exactly the catalogue's lessons with that module, each listed once when catalogue ids are unique |
| Store.FindLesson | academy/views.py:402 | a lesson is found iff one has the id |
| Store.CompletedLessonCountExtremes | academy/views.py:62-66 | the completed count is the number of lessons iff all are done, and 0 iff none is |
| Store.LessonCompletionDecidesModule | academy/views.py:62-81 | with all lessons done the module is completed with 100; with none it is not_started with 0 |
| Store.RowOr | academy/views.py:105-114 | get-or-create yields the stored row if present, else the defaults |
| Store.SaveDefaults | academy/models.py:189-193 | the save creates a missing row as completed with score 0 |
| Store.MarkPassDefaults | academy/views.py:830-834 | the manager's pass creates a missing row as completed with score 100 |
| Store.ProgressStore.GetModuleProgress | academy/views.py:105-114 | returns the stored row, or stores and returns the defaults |
| Store.ProgressStore.UpdateModuleProgressFromLessons | academy/views.py:39-85 | the field-by-field update stores and returns the recomputation of the loaded row |
| Store.ProgressStore.CompleteLesson | academy/views.py:401-418 | an unknown lesson is NotFound; otherwise the lesson is completed with its first completion time kept and its module's row is recomputed |
| Store.ProgressStore.VisitModule | academy/views.py:246-283 | a locked module is refused with nothing changed; otherwise the page percentage divides by at least one lesson and the row is recomputed |
| Store.ProgressStore.IssueCertificateIfNeeded | academy/views.py:117-140 | the certificate table becomes the get-or-create result and the certificate returned is its entry |
| Store.ProgressStore.RecordQuizAttempt | academy/views.py:365-386 | stores the quiz transition of the loaded row; a pass of the final-assessment module issues the certificate |
| Store.ProgressStore.SubmitQuiz | academy/views.py:297-386 | locked, no questions and unreadable ids are refused; an accessible module with questions and readable answers always succeeds, each marked answer is the quiz marking of its question, the score is the percentage of correct answers, and the row and certificates are the quiz transition's |
| Store.ProgressStore.RecordPass | academy/models.py:189-199 | stores and returns the pass applied to the row, creating it from the given defaults |
| Store.ProgressStore.SaveSubmission | academy/models.py:182-199 | the submission is stored; only a reviewed and passed one applies the pass to the learner's row; other tables are unchanged |
| Store.ProgressStore.SubmitFinalTest | academy/views.py:471-539 | locked, no questions and unreadable ids are refused; an accessible module with questions and readable answers always succeeds, adding one new submission, unreviewed, not passed and with no reviewer or review time, with one snapshot per question under a fresh id and reporting the score; progress is untouched |
| Store.ProgressStore.ManagerMarkPass | academy/views.py:816-865 | an unknown submission is NotFound; otherwise it is marked reviewed and passed; the row ends completed with max(score, 100), the first completion time and last attempt now; the certificate is created unless one exists, and the result says whether one was |
| Text.SplitJoin | academy/views.py:1091 | joining the pieces of `split` with the separator gives back the string |
| Text.ShortLinkId | academy/views.py:1090-1091 | for a URL with "youtu.be/", the id directly follows the first "youtu.be/", holds no "?" and no "youtu.be/", and ends at the end of the URL, at a "?" or at the next "youtu.be/" |
| Text.WatchId | academy/views.py:1092-1093 | for a URL with "watch?v=" but no "youtu.be/", the id directly follows the first "watch?v=", holds no "&" and no "watch?v=", and ends at the end of the URL, at a "&" or at the next "watch?v=" |
| Text.NoMarkerNoId | academy/views.py:1087-1095 | a missing URL, or one with neither marker, gives the empty id |
| Text.ThirdBranchUnreachable | academy/views.py:1094-1095 | a URL containing "youtube.com/watch?v=" contains "watch?v=", so the third branch never runs |
| Text.Strip | academy/views.py:1134 | `strip` removes only whitespace from each end and leaves neither end whitespace |
| Text.SlugShape | academy/views.py:1134 | a slug holds no space and no capital letter, neither end is whitespace, and it is no longer than the title |
| Text.SlugIdempotent | academy/views.py:1134 | deriving a slug from a slug gives the same slug |
| Text.TextShort | academy/admin.py:86 | text of at most 60 characters is unchanged; longer text becomes its first 60 characters and "..."; the result has at most 63 characters and starts with the first min(len, 60) characters |
| Importer.FixtureFormat | academy/views.py:1314-1317 | the fixture format is chosen iff the data is a non-empty list whose first item has "model" and "fields"; `in` on a number, boolean or null first item is an error |
| Importer.ModuleOverride | academy/views.py:1331-1336 | a falsy module id keeps the default; a non-zero number naming an existing module replaces it, otherwise the default stays |
| Importer.FixtureFailureSticks | academy/views.py:1325-1362 | once the fixture walk has raised, the later items change nothing |
| Importer.FixtureCounts | academy/views.py:1322-1362 | a fixture walk without error creates one question per question entry, skips exactly the choices whose question pk is not on an earlier question entry, creates the other choices, and maps every pk to a created question |
| Importer.ChoiceBeforeQuestion | academy/views.py:1347-1355 | a choice listed before its question is skipped although the question is created |
| Importer.SlugModule | academy/views.py:1375-1378 | the slug picks the module of the first entry carrying it, and the default when no entry carries it |
| Importer.AddChoicesFailureSticks | academy/views.py:1389-1395 | once a choice has raised, the later choices change nothing |
| Importer.AddChoicesKeeps | academy/views.py:1389-1395 | adding choices creates no question, skips nothing, keeps the earlier choices, and on success adds one choice per item |
| Importer.CustomFailureSticks | academy/views.py:1368-1395 | once the custom walk has raised, the later entries change nothing |
| Importer.CustomCounts | academy/views.py:1367-1395 | a custom walk without error skips exactly the entries lacking "text" or "choices" and creates one question for each of the others |
| Importer.ImportFixture | academy/views.py:1322-1362 | the fixture loop with its pk map computes the fixture walk |
| Importer.AppendChoices | academy/views.py:1389-1395 | the choice loop computes the choice walk |
| Importer.ImportCustom | academy/views.py:1367-1395 | the custom-format loop computes the custom walk |
| Importer.ImportQuestions | academy/views.py:1296-1395 | an unknown module imports nothing; a successful fixture import creates one question per question entry and skips the orphaned choices; a successful custom import skips the incomplete entries and creates a question for every other entry |

## Left out

- Common.Percent: the source computes `int((c / t) * 100)` in floating point. The result can be one below the exact floor (29 of 100 gives 28). The model uses the exact floor of 100·c/t.
- The certificate e-mail: `_issue_certificate_if_needed` calls `reverse` and `mail_admins`, which `academy/views.py` never imports, so the request fails after the certificate has been created. Only the lookup and creation are modelled.
- E-mail to superusers after a final test, PDF certificates, HTML rendering, redirects, flash messages, authentication and URL routing. None of these changes the tables.
- Concurrency: each request runs alone, and get-or-create is an atomic upsert.
- `timezone.now()` is a parameter. Certificates.CertificateNumber takes the issue time already truncated to whole seconds.
- Scoring.MarkQuiz: a posted choice id that is not a number makes the source raise `ValueError` (only `DoesNotExist` is caught). The model returns an error instead of a server error. The progress row that get-or-create made before marking stays, as in the source.
- Scoring.MarkFinalTest: a non-numeric posted id is likewise an error, and no submission is stored.
- The database's coercion of imported values to column types: text, order and explanation are kept as the JSON values found.
- Reading the uploaded file and decoding the JSON. The missing-file and invalid-JSON messages are not modelled; the import starts from a parsed value.
- The target module is given as an integer; a non-numeric `module_id` in the form is not modelled.
- The `delete_existing` option, which deletes the module's questions before the import.
- Importer.ModuleOverride: a truthy module id that is not a number is reported as `UnsupportedValue`. Django's lookup may coerce such a value, for example a numeric string.
- Importer.CustomStep: the same holds for a module slug that is not a string.
- Importer.Json: numbers are integers. A fractional number such as `1.0` is not modelled, so neither is Python treating `1.0` and `1` as the same dictionary key.
- Records.DashboardCourses: the dashboard's ordering of courses by their `order` field and its prefetching of modules are not modelled; the result is a set of ids.
- Importer.FixtureStep: a pk of `true` and a question reference of `1` name the same Python dictionary key. The model keeps JSON values distinct.
- Importer.Import: for a top-level object whose key contains both "text" and "choices", the model reports the error with a skipped count of 0. Python would have counted the keys it had already visited, but an object's key order is not modelled, and the count is never shown after an error.
- Text.Lower: only the ASCII letters A–Z are lower-cased. Python's `str.lower` also lower-cases other letters.
- The management screens that create, edit or delete courses, modules, lessons, questions, choices, users, documents and assignments.
- The duplicate definitions of `manager_documents`, `manager_final_tests` and `manager_driver_progress` are ignored; only the later `manager_final_tests`, with its summary arithmetic, is modelled.
- `academy/forms.py` is not part of this model.
