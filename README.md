# EduSync grading, enrollment and file rules in Dafny

EduSync is an education-platform backend. Instructors publish courses and
assessments, students enroll and submit answers, and course files sit in blob
storage. This project models the parts of it that carry rules rather than
plumbing. Each part is stated as Dafny definitions with proved contracts.

- **Assessment grading.** One grading routine appears three times:
  `ResultService.CalculateResultAsync`, `ResultsController.CalculateResult`
  and `AssessmentsController.SubmitAssessment`, with the helpers
  `CountCorrectAnswers` and `CalculateScore`.
  - The question blob decodes to a JSON array. An entry counts only if its
    `id` is a JSON string and its `correctOption` is a string or an Int32. A
    numeric option is compared as its decimal text.
  - `points` defaults to 1. An answer is correct only on exact ordinal
    equality.
  - The percentage is rounded to two decimals, and 70 or more passes.
- **Where the three copies differ.** Each copy is modelled as written:
  - the order of their early checks;
  - whether a non-object entry aborts grading or is skipped;
  - whether `points` is read;
  - which errors become 400 and which become 500.
- **Enrollment and courses** (`CourseService`).
  - Enrollment is check-then-insert, so no (student, course) pair is ever
    stored twice.
  - The module also covers the enrollment queries and the field rules of
    course creation and update.
- **Blob URLs** (`BlobService`). A URL path splits into a container and a
  blob name, and uploads are named from the original file's base name and
  extension.
- **File endpoints** (`FilesController`):
  - the extension-to-content-type switch;
  - the download-name fallback;
  - the upload pre-checks;
  - who may list a course's files.

## Layout

| file | module | what it holds |
|---|---|---|
| `outcomes.dfy` | `Outcomes`, `Ids` | `Option`, `Outcome`; GUIDs and timestamps as opaque values |
| `json_tree.dfy` | `JsonTree` | decoded JSON, the stored question text, `Deserialize<List<dynamic>>`, `TryGetProperty` |
| `numeric.dfy` | `Numeric` | round-half-to-even on exact rationals; Int32 decimal text and its inverse |
| `grading.dfy` | `Grading` | answer dictionary, per-entry reading, the score and count loops, percentage and verdict |
| `grading_store.dfy` | `GradingStore` | the Assessments and Results tables as a class with an append-only `AddResult` |
| `result_service.dfy` | `ResultService` | `CalculateResultAsync` |
| `results_controller.dfy` | `ResultsController` | `CalculateResult` and how it relates to the service |
| `assessments_controller.dfy` | `AssessmentsController` | `SubmitAssessment`, `CountCorrectAnswers`, `CalculateScore` |
| `course_service.dfy` | `CourseService` | Courses, Enrollments and Users as a class; enrollment and course operations |
| `blob_service.dfy` | `BlobService` | URL-path splitting, download/delete addressing, upload naming |
| `files_controller.dfy` | `FilesController` | content type, download name, upload checks, course-file access |

### Representation choices

- **Percentages.** A percentage is an integer count of hundredths of a
  percent, so 33.33% is `3333`. It is computed as `RoundHalfEven(score *
  10000, maxScore)` on the exact rational. A result passes when its
  percentage is at least `7000`. `Grading.PassedIff` restates this verdict
  without rounding: in the model a result passes exactly when `maxScore > 0`
  and `20000 * score >= 13999 * maxScore`. The boundary case differs from
  the source's doubles (see `Grading.Percentage` under "Left out").
- **Numbers in JSON.** An integer in the Int32 range is `JInt`. Every other
  number is `JOtherNum`, the case on which `GetInt32` throws.
- **The stored question text** is one of:
  - `NullText` (a null column);
  - `EmptyText`;
  - `Unparsable`;
  - `Document(root)`.
- **Deserialization results.** Deserializing a null text throws
  `ArgumentNullException`, which is not a `JsonException`. In the service it
  escapes. In `ResultsController` it reaches the outer catch and yields 500.
- **Each HTTP endpoint's results** are a datatype of the responses it can
  give, with the exception paths folded into `ServerError`.
- **Generated values.** `Guid.NewGuid()` and `DateTime.UtcNow` are
  parameters. A new row's id is required to be fresh.

### Behaviour of the code worth noting

- **totalQuestions.** `totalQuestions` in both controllers is the raw
  number of array entries, skipped ones included.
- **Duplicate question ids.** A submission that repeats a `QuestionId` makes
  `ToDictionary` throw, so grading aborts: a 500 from `ResultsController`, an
  escaping exception from the service.
- **Numeric options and points.** Only Int32 numbers are read as
  `correctOption` or `points`. Any other number makes its entry be skipped in
  the score loop. Points are not clamped, so 0 and negative values count as
  written.
- **Empty question lists.** The empty-list check looks at the raw array
  before any entry is filtered.
- **Exact matching.** Answers match only on exact ordinal equality, in all
  three copies. The trimmed and case-insensitive comparisons in
  `CountCorrectAnswers` are only logged.

## Model

Some definitions have no row of their own because the lemmas in the
table describe them:
- `Grading.KeyOf`, `Grading.PointsOf` and `Grading.ParseEntry` are the
  per-entry reading (Services/ResultService.cs:117-162 and
  Controllers/AssessmentsController.cs:304-341). `Grading.ParseEntryAccepts`
  describes `ParseEntry`, and `Grading.CountIgnoringPoints` relates the
  points-blind `KeyOf` to it.
- `Grading.IsPassed` is the threshold test of Services/ResultService.cs:201.
  `Grading.PassedIff` and `Grading.Grade` describe it.
- `AssessmentsController.ScaledScore` is the expression of
  Controllers/AssessmentsController.cs:394-395. `CalculateScore` and
  `ScaledScoreRange` describe it.
- `FilesController.ContentTypeSwitch` and `ContentTypeFor` are the switch of
  Controllers/FilesController.cs:91-127. `SwitchKnown`, `SwitchUnknown`,
  `ContentTypeMatchesTable` and `ContentTypeIgnoresCase` describe them.
- `BlobService.Join` is the `string.Join("/", ...)` of
  Services/BlobService.cs:65. `FieldsOfJoin` describes it.
- `CourseService.CountForCourse` is the `CountAsync` of
  Services/CourseService.cs:112 and 128-131. `CountIsDistinctStudents`,
  `CountAfterEnroll` and `CourseStore.GetEnrollmentCount` describe it.
- `CourseService.CoursesWithIds` is the `Where(... Contains ...)` filter of
  Services/CourseService.cs:142-144. `CoursesWithIdsMembers` and
  `EnrolledCoursesExact` describe it.
- `Grading.IsCorrect` is the dictionary lookup and ordinal comparison of
  Services/ResultService.cs:165-171 and Controllers/ResultsController.cs:136-139.
  `ScoreEntries`, `TallyAllCorrect` and `TallyNoneCorrect` describe it.

| member | source | states |
|---|---|---|
| JsonTree.DeserializeList | Services/ResultService.cs:59-62 | only an array root yields entries, and they are the array's items; the literal null yields a null list; a null text yields ArgumentNullException; anything else is a JSON error |
| JsonTree.TryGetProperty | Services/ResultService.cs:118 | it throws exactly on a non-object element; it finds a value exactly when the key is present, and the value is the field's |
| Numeric.RoundHalfEven | Services/ResultService.cs:196-198 | the result is within half a step of n/d, and on an exact tie it is even |
| Numeric.RoundHalfEvenUnique | Services/ResultService.cs:196-198 | any integer strictly nearer than half a step is the rounding |
| Numeric.RoundHalfEvenTie | Services/ResultService.cs:196-198 | a midpoint rounds to its even neighbour |
| Numeric.RoundHalfEvenMonotone | Services/ResultService.cs:196-198 | rounding is monotone in the numerator |
| Numeric.RoundHalfEvenExact | Services/ResultService.cs:196-198 | an exact multiple rounds to itself |
| Numeric.DecimalRoundTrip | Services/ResultService.cs:149 | reading back Int32.ToString() gives the number, sign included |
| Numeric.DigitsRoundTrip | Services/ResultService.cs:149 | reading back the digit string of a natural number gives the number |
| Numeric.DecimalStringInjective | Services/ResultService.cs:149 | distinct numeric correct options have distinct texts |
| Grading.BuildIndex | Services/ResultService.cs:105-106 | the dictionary exists iff the question ids are pairwise distinct; its keys are exactly the submitted ids and each maps to its own answer |
| Grading.CorrectOptionText | Services/ResultService.cs:139-157 | a correct option is usable exactly when it is a string or an Int32 |
| Grading.ParseEntryAccepts | Services/ResultService.cs:117-162 | an entry is accepted as question q iff it is an object with a string `id`, a `correctOption` that is q's text or an Int32 rendering to it, and `points` that is absent or non-numeric (giving 1) or an Int32 equal to q's points |
| Grading.ScoreEntries | Services/ResultService.cs:108-193 | the loop's totals equal the tally of the accepted questions in entry order |
| Grading.CountCorrectAnswers | Controllers/AssessmentsController.cs:292-383 | the loop's count equals the number of accepted keys answered exactly |
| Grading.TallyBounds | Services/ResultService.cs:164-181 | at most one correct answer per accepted question; with non-negative points the score is between 0 and the sum of accepted points |
| Grading.TallyAllCorrect | Services/ResultService.cs:164-181 | answering every accepted question exactly earns all their points and counts each one |
| Grading.TallyNoneCorrect | Services/ResultService.cs:164-181 | with no exact match the score and the count are 0 |
| Grading.CountIgnoringPoints | Controllers/AssessmentsController.cs:215-270 | the points-blind count is at least the score loop's count, and equal when every entry's points are readable |
| Grading.Percentage | Services/ResultService.cs:196-198 | with maxScore > 0 the result is score/maxScore*100 rounded to hundredths; otherwise 0 |
| Grading.PassedIff | Services/ResultService.cs:196-201 | a result passes iff maxScore > 0 and the score is at least 69.995% of maxScore |
| Grading.PercentageRange | Services/ResultService.cs:196-198 | a score between 0 and maxScore gives a percentage between 0 and 100 |
| Grading.PercentageFull | Services/ResultService.cs:196-198 | a full score is exactly 100.00% |
| Grading.Grade | Services/ResultService.cs:93-201 | at most one correct answer per entry, and the verdict in terms of the score alone |
| GradingStore.GradingDb.FindAssessment | Services/ResultService.cs:38-39 | the lookup finds exactly the stored assessment under that id |
| GradingStore.GradingDb.AddResult | Services/ResultService.cs:217-218 | appends exactly one row, keeps result ids unique and changes nothing else |
| ResultService.ServiceGrade | Services/ResultService.cs:35-201 | grading succeeds iff the assessment is found, the answers are non-empty with distinct ids, and the text is a non-empty array of objects, and then yields the grade of those entries; each failure has its own error, checked in source order: unknown assessment, no answers (before the questions are read), null text, invalid JSON, null or empty list, a non-object entry |
| ResultService.InspectEntries | Services/ResultService.cs:65-84 | the logging loop completes iff every entry is an object |
| ResultService.CalculateResultAsync | Services/ResultService.cs:35-229 | on success it appends one Result with the fresh id, the dto's assessment and user, the score, percentage and verdict; on every error it appends nothing |
| ResultService.ServiceOutcomeBounds | Services/ResultService.cs:93-201 | a graded result has at most one correct answer per parsed question, passes by the score alone, and has a percentage in [0, 100] when 0 <= score <= maxScore |
| ResultService.ServiceRejectsEmptyQuestionList | Services/ResultService.cs:59-62 | a blob decoding to null or [] fails with "Assessment has no questions" |
| ResultService.ServiceAbortsOnNonObject | Services/ResultService.cs:65-84 | a single non-object entry aborts grading |
| ResultService.ServiceRejectsDuplicateIds | Services/ResultService.cs:105-106 | a QuestionId submitted twice aborts grading |
| ResultsController.ControllerGrade | Controllers/ResultsController.cs:47-160 | success iff a found assessment, a non-empty question array, answers and distinct ids, and then the grade of all entries with the raw entry count as totalQuestions; an unknown assessment is 404; a null text is 500; invalid JSON is 400; a null or empty list is 400 whatever the answers; then missing answers are 400 |
| ResultsController.CalculateResult | Controllers/ResultsController.cs:41-200 | on success one Result is stored and the body carries it with correctAnswers, the raw totalQuestions and the message chosen by isPassed alone; errors store nothing |
| ResultsController.AgreesWithService | Controllers/ResultsController.cs:84-160 | wherever the service grades, the controller grades identically |
| ResultsController.SkipsNonObjects | Controllers/ResultsController.cs:84-152 | the controller's grade equals the grade of the object entries alone |
| ResultsController.ControllerRejectsDuplicateIds | Controllers/ResultsController.cs:80-81 | a QuestionId submitted twice gives 500 once the questions are a non-empty array |
| ResultsController.CheckOrderDiffers | Controllers/ResultsController.cs:57-77 | with no answers and an empty question list, the service reports the answers and the controller the questions |
| AssessmentsController.Precheck | Controllers/AssessmentsController.cs:174-198 | the checks pass iff answers are present and the text decodes to an array, and then yield its entries; otherwise, in this order: no answers is 400 "No answers were submitted", a null or empty text is 400 "Assessment has no questions", and any other text (invalid JSON, a non-array root, JSON null) is 400 "Invalid question format" |
| AssessmentsController.SubmitAssessment | Controllers/AssessmentsController.cs:150-289 | an absent claim gives 401 and an unknown id 404; the stored Result is attributed to the route id and the token user; score, percentage and verdict come from the service, correctAnswers from the points-blind count, totalQuestions from the raw length; a service failure gives 500; at most one row is added |
| AssessmentsController.CalculateScore | Controllers/AssessmentsController.cs:385-398 | 0 for a null or empty list; otherwise the correct share of maxScore rounded half to even |
| AssessmentsController.ScaledScoreRange | Controllers/AssessmentsController.cs:393-395 | the scaled score lies in [0, maxScore], is 0 with nothing correct and maxScore with everything correct |
| AssessmentsController.ReportedCountBounds | Controllers/AssessmentsController.cs:206-280 | the reported correctAnswers is between the stored score's count and totalQuestions |
| AssessmentsController.EmptyArrayPassesPrecheck | Controllers/AssessmentsController.cs:184-204 | the blob "[]" passes the controller's checks and fails only inside the service |
| CourseService.AnyEnrollment | Services/CourseService.cs:164-167 | true iff some enrollment matches both the student and the course |
| CourseService.CountIsDistinctStudents | Services/CourseService.cs:128-131 | without duplicate pairs a course's count is its number of distinct students |
| CourseService.CountAfterEnroll | Services/CourseService.cs:128-131 | one more enrollment raises its course's count by one and no other course's |
| CourseService.WithInstructorName | Services/CourseService.cs:104-109 | only the instructor name may change: it becomes the known user's name, and the course is unchanged when the instructor is not a known user |
| CourseService.CoursesWithIdsMembers | Services/CourseService.cs:142-144 | the course filter keeps exactly the courses whose id is in the set |
| CourseService.EnrolledCourseIds | Services/CourseService.cs:136-139 | a course id is listed iff the student has an enrollment in it |
| CourseService.EnrolledCoursesExact | Services/CourseService.cs:133-144 | the enrolled courses are exactly the table's courses the student is enrolled in |
| CourseService.CourseStore.FindCourse | Services/CourseService.cs:89 | finds the row holding the id, or reports that none does |
| CourseService.CourseStore.EnrollmentExists | Services/CourseService.cs:164-167 | true iff a stored enrollment matches both ids |
| CourseService.CourseStore.GetEnrollmentCount | Services/CourseService.cs:128-131 | the count is the number of distinct students enrolled in the course |
| CourseService.CourseStore.EnrollStudent | Services/CourseService.cs:117-126 | returns false and changes nothing for an existing pair; otherwise appends exactly one enrollment; no duplicate pair is ever stored |
| CourseService.CourseStore.CreateCourse | Services/CourseService.cs:64-85 | the new course has 0 students and the instructor's name or "Unknown Instructor", and is appended |
| CourseService.CourseStore.UpdateCourse | Services/CourseService.cs:87-115 | a missing id is KeyNotFound with nothing changed; otherwise only title, description and media URL of that row change, and the returned course carries the current instructor name and enrollment count |
| CourseService.CourseStore.GetEnrolledCourses | Services/CourseService.cs:133-162 | the enrolled courses in table order, each with the instructor name filled in when the instructor exists |
| BlobService.Fields | Services/BlobService.cs:58 | splitting gives at least one piece and no piece contains '/' |
| BlobService.Segments | Services/BlobService.cs:58 | the non-empty pieces contain neither '' nor '/' |
| BlobService.NonEmpty | Services/BlobService.cs:58 | after dropping empty pieces, every piece left is non-empty and is a piece of the input, and there are no more pieces than before |
| BlobService.ContainerAndBlob | Services/BlobService.cs:53-65 | an error iff fewer than two non-empty segments; the container is the first segment and the blob name splits back into the rest |
| BlobService.FieldsOfJoin | Services/BlobService.cs:65 | joining slash-free segments with '/' and splitting gives them back |
| BlobService.CanonicalPath | Services/BlobService.cs:57-65 | "/container/blob" splits into that container and blob when the blob's parts are non-empty |
| BlobService.CollapsesEmptySegments | Services/BlobService.cs:58-65 | a leading or trailing slash changes neither container nor blob |
| BlobService.CollapsesDoubledSlash | Services/BlobService.cs:58-65 | a doubled slash inside the path changes neither container nor blob |
| BlobService.DownloadFile | Services/BlobService.cs:53-75 | the read succeeds iff the split address is well-formed and present, and reads that address; BlobNotFound iff it is well-formed and absent |
| BlobService.DeleteFile | Services/BlobService.cs:95-116 | fails exactly when the address is malformed; otherwise removes exactly that address and reports whether it existed |
| BlobService.DownloadThenDelete | Services/BlobService.cs:95-107 | delete removes exactly the blob a download of the same URL reads |
| BlobService.UploadBlobName | Services/BlobService.cs:29 | the name is the base name, '-', the GUID text and the extension, in that order and nothing else |
| BlobService.UploadNameDeterminesGuid | Services/BlobService.cs:29 | for one original file, equal upload names imply equal GUIDs |
| FilesController.ToLower | Controllers/FilesController.cs:92 | lower-cases ASCII letters position by position and leaves other characters alone |
| FilesController.ToLowerIdempotent | Controllers/FilesController.cs:92 | lower-casing twice is lower-casing once |
| FilesController.SwitchKnown | Controllers/FilesController.cs:94-127 | each listed extension gets its listed content type |
| FilesController.SwitchUnknown | Controllers/FilesController.cs:91 | any other extension, the empty one included, is application/octet-stream |
| FilesController.ContentTypeMatchesTable | Controllers/FilesController.cs:91-127 | the content type is the table entry of the lower-cased extension, else application/octet-stream |
| FilesController.ContentTypeIgnoresCase | Controllers/FilesController.cs:92 | ".PDF" and ".pdf" map alike |
| FilesController.LastField | Controllers/FilesController.cs:135-136 | the last '/'-piece of the path never contains '/' |
| FilesController.DownloadName | Controllers/FilesController.cs:129-137 | a non-empty fileName is used verbatim; otherwise the last '/'-piece of the path |
| FilesController.LastFieldOfJoin | Controllers/FilesController.cs:134-136 | the last piece of a path ending in joined parts is the last part |
| FilesController.DownloadNameFallback | Controllers/FilesController.cs:130-136 | without a fileName, "/c/p1/.../pn" downloads as pn |
| FilesController.DownloadFile | Controllers/FilesController.cs:78-152 | an empty URL is 400 before any lookup; a missing blob is 404; a bad URL or path is 500; a found blob gives a file result, which carries that blob, the extension's content type and the download name |
| FilesController.UploadFile | Controllers/FilesController.cs:39-70 | a null or empty file is 400 before the token is read; a missing claim is 401; an upload goes to "course-materials" under the generated name, and its reply name is a separate GUID plus the extension |
| FilesController.CourseFilesAccess | Controllers/FilesController.cs:177-189 | allowed iff neither a non-owner Instructor nor a non-enrolled Student |
| FilesController.MaterialsOf | Controllers/FilesController.cs:192-193 | exactly the materials of the course |
| FilesController.GetCourseFiles | Controllers/FilesController.cs:160-212 | an unknown course is 404 and a missing claim 401; a Student sees the files iff enrolled, an Instructor iff owner, any other role always; the list is exactly the course's materials |

## Left out

- JSON text parsing is left out. The model starts from the decoded tree, with
  objects as maps with unique, case-sensitive keys. Invalid text is one
  `Unparsable` value.
- Grading.Percentage: computed on the exact rational rather than in IEEE
  doubles. A double quotient that lands just beside a rounding midpoint may
  round differently in the source. For example, 13999 of 20000 is 70.00 and
  passes in the model, while the source's doubles give 69.99, which fails.
  Likewise 23 of 160 is 14.38 in the model and 14.37 in the source.
- AssessmentsController.CalculateScore: same exact-rational substitution for
  `(double)correct / total * maxScore` and the `(int)` cast.
- Grading.ScoreEntries: Int32 overflow of the running score is not modelled;
  points are unbounded integers.
- Numeric.DecimalRoundTrip: the '-' sign is the invariant culture's. A
  culture-specific negative sign is not modelled.
- FilesController.ToLower: lowers ASCII letters only. The non-ASCII case
  mappings of `ToLowerInvariant` are not modelled.
- FilesController.DownloadFile: `System.Uri` parsing and `Path.GetExtension`
  are inputs, as the URL's absolute path (None when the URL does not parse)
  and its extension.
- Entity Framework queries, `SaveChangesAsync` and async plumbing are left
  out. Tables are sequences or maps in a class. Concurrent requests are not
  modelled, so the check-then-insert of `EnrollStudentAsync` is atomic here.
- The Azure Blob SDK is a set of existing blob addresses. Stream contents,
  container creation, HTTP headers and SDK failures are not modelled.
- `UploadFileAsync` returns the blob's URL. Here the upload's address is the
  container and blob name, so the storage account's host is left out.
- Console logging is left out, including the debug comparisons in
  `CountCorrectAnswers`.
- JWT claim extraction and `Guid.Parse` of the claim: a claim is present (a
  GUID) or absent. A malformed claim's 500 is left out.
- Role attributes such as `[Authorize(Roles = "Instructor")]` are enforced by
  the framework before an action runs and are not modelled.
- `CourseService.GetAllAsync` and `GetByIdAsync` are not part of this model.
  They repeat the instructor-name and enrollment-count fill-in that
  `UpdateCourse` and `GetEnrolledCourses` model.
- Whether the `InstructorName` and `EnrolledStudents` assigned after
  `SaveChangesAsync` are ever persisted depends on Entity Framework change
  tracking. The model stores only the three updated fields.
- The response message texts carried by 4xx and 500 results are left out
  beyond the fixed prefixes. Exception messages appended to them are dropped.
- `FilesController.DeleteFile`, `CourseMaterialsController`, the event hub
  service, and the authentication, user, course and assessment pass-through
  controllers and services are not part of this model.
