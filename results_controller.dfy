/** ResultsController.CalculateResult: the second copy of the grading, which
    checks the questions before the answers, skips any entry that throws, and
    reports the raw number of entries as totalQuestions. */
module ResultsController {
  import opened Outcomes
  import opened Ids
  import opened JsonTree
  import opened Grading
  import opened GradingStore
  import ResultService

  const PassedMessage: string := "Congratulations! You passed the assessment."
  const FailedMessage: string := "You did not pass the assessment. Please review the material and try again."

  /** The anonymous object returned with 200 OK. */
  datatype CalculateBody = CalculateBody(
    result: ResultRecord,
    correctAnswers: nat,
    totalQuestions: nat,
    message: string)

  datatype Response =
    | NotFound(text: string)
    | BadRequest(text: string)
    | ServerError       // any exception reaching the outer catch: 500
    | Success(body: CalculateBody)   // 200 OK

  /** What the controller computes before anything is stored: the grade and
      the raw entry count, or the response that ends the request early. */
  function ControllerGrade(assessment: Option<Assessment>, answers: Option<seq<Answer>>): (r: Outcome<(Graded, nat), Response>)
    ensures r.Ok? ==> assessment.Some? && !ResultService.NoAnswers(answers) && DistinctQuestionIds(answers.value)
    ensures r.Ok? ==> var d := DeserializeList(assessment.value.questions);
                      d.Items? && r.value.1 == |d.entries| > 0 && r.value.0.correctAnswers <= r.value.1
    ensures r.Err? ==> !r.error.Success?
    ensures assessment.None? ==> r == Err(NotFound("Assessment not found"))
    ensures assessment.Some? ==>
              var d := DeserializeList(assessment.value.questions);
              && (d.ArgumentNull? ==> r == Err(ServerError))
              && (d.JsonError? ==> r == Err(BadRequest("Invalid question format")))
              && (d.NullList? || (d.Items? && |d.entries| == 0) ==> r == Err(BadRequest("Assessment has no questions")))
              && (d.Items? && |d.entries| > 0 && ResultService.NoAnswers(answers) ==>
                    r == Err(BadRequest("No answers were submitted")))
    /** Valid input is graded: a found assessment, a non-empty array and
        distinct answers give the grade of all entries and the raw count. */
    ensures assessment.Some? && !ResultService.NoAnswers(answers) && DistinctQuestionIds(answers.value) ==>
              var d := DeserializeList(assessment.value.questions);
              d.Items? && |d.entries| > 0 ==>
                r == Ok((Grade(d.entries, BuildIndex(answers.value).value, assessment.value.maxScore), |d.entries|))
  {
    if assessment.None? then Err(NotFound("Assessment not found"))
    else
      match DeserializeList(assessment.value.questions)
      case ArgumentNull => Err(ServerError)
      case JsonError => Err(BadRequest("Invalid question format"))
      case NullList => Err(BadRequest("Assessment has no questions"))
      case Items(entries) =>
        if |entries| == 0 then Err(BadRequest("Assessment has no questions"))
        else if ResultService.NoAnswers(answers) then Err(BadRequest("No answers were submitted"))
        else
          match BuildIndex(answers.value)
          case None => Err(ServerError)
          case Some(index) => Ok((Grade(entries, index, assessment.value.maxScore), |entries|))
  }

  method CalculateResult(db: GradingDb, dto: ResultService.ResultDto, newId: Guid, now: Timestamp)
    returns (resp: Response)
    requires db.Valid() && newId !in db.ResultIds()
    modifies db
    ensures db.Valid() && db.assessments == old(db.assessments)
    ensures var c := ControllerGrade(old(db.FindAssessment(dto.assessmentId)), dto.submittedAnswers);
            && (c.Err? ==> resp == c.error && db.results == old(db.results))
            && (c.Ok? ==>
                  var g := c.value.0;
                  var rec := ResultRecord(newId, dto.assessmentId, dto.userId, g.totalScore, g.percentage, g.isPassed, now);
                  && resp == Success(CalculateBody(rec, g.correctAnswers, c.value.1,
                                              if g.isPassed then PassedMessage else FailedMessage))
                  && db.results == old(db.results) + [rec])
  {
    var assessment := db.FindAssessment(dto.assessmentId);
    if assessment.None? {
      return NotFound("Assessment not found");
    }
    var questions: seq<Json>;
    match DeserializeList(assessment.value.questions) {
      case ArgumentNull => return ServerError;
      case JsonError => return BadRequest("Invalid question format");
      case NullList => return BadRequest("Assessment has no questions");
      case Items(entries) => questions := entries;
    }
    if |questions| == 0 {
      return BadRequest("Assessment has no questions");
    }
    var totalQuestions := |questions|;
    var maxPossibleScore := assessment.value.maxScore;
    if dto.submittedAnswers.None? || |dto.submittedAnswers.value| == 0 {
      return BadRequest("No answers were submitted");
    }
    var index := BuildIndex(dto.submittedAnswers.value);
    if index.None? {
      return ServerError;
    }
    var totalScore, correctAnswersCount := ScoreEntries(questions, index.value);
    var percentage := Percentage(totalScore, maxPossibleScore);
    var isPassed := IsPassed(percentage);
    var result := ResultRecord(newId, dto.assessmentId, dto.userId, totalScore, percentage, isPassed, now);
    db.AddResult(result);
    var message := if result.isPassed then PassedMessage else FailedMessage;
    return Success(CalculateBody(result, correctAnswersCount, totalQuestions, message));
  }

  // ---------------------------------------------------------------------------
  // How this copy relates to ResultService

  /** Wherever the service grades, the controller grades identically, and it
      reports every raw entry in totalQuestions. */
  lemma AgreesWithService(assessment: Option<Assessment>, answers: Option<seq<Answer>>)
    requires ResultService.ServiceGrade(assessment, answers).Ok?
    ensures ControllerGrade(assessment, answers) ==
              Outcome.Ok((ResultService.ServiceGrade(assessment, answers).value,
                          |DeserializeList(assessment.value.questions).entries|))
  {
  }

  /** The controller grades a list with non-object entries (which the service
      rejects) by skipping them: the grade is that of the object entries alone. */
  lemma {:induction false} SkipsNonObjects(entries: seq<Json>, index: AnswerIndex, maxScore: int)
    ensures Grade(entries, index, maxScore) == Grade(ObjectsOnly(entries), index, maxScore)
  {
    QuestionsOfObjects(entries);
  }

  function ObjectsOnly(entries: seq<Json>): (r: seq<Json>)
    ensures ResultService.AllObjects(r)
  {
    if entries == [] then []
    else
      var init := ObjectsOnly(entries[..|entries| - 1]);
      var last := entries[|entries| - 1];
      if last.JObj? then init + [last] else init
  }

  lemma {:induction false} QuestionsOfObjects(entries: seq<Json>)
    ensures Questions(ObjectsOnly(entries)) == Questions(entries)
  {
    if entries != [] {
      var init, last := entries[..|entries| - 1], entries[|entries| - 1];
      assert entries == init + [last];
      QuestionsOfObjects(init);
      QuestionsSnoc(init, last);
      if last.JObj? {
        QuestionsSnoc(ObjectsOnly(init), last);
      }
    }
  }

  /** A QuestionId submitted twice makes ToDictionary throw, which the outer
      catch turns into 500, not 400. */
  lemma ControllerRejectsDuplicateIds(assessment: Assessment, answers: seq<Answer>, i: nat, j: nat)
    requires i < j < |answers| && answers[i].questionId == answers[j].questionId
    requires var d := DeserializeList(assessment.questions); d.Items? && |d.entries| > 0
    ensures ControllerGrade(Some(assessment), Some(answers)) == Err(ServerError)
  {
  }

  /** The two copies check in opposite orders: with no answers and an empty
      question list the service reports the missing answers, the controller
      the missing questions. */
  lemma CheckOrderDiffers(assessment: Assessment)
    requires assessment.questions == Document(JArr([]))
    ensures ResultService.ServiceGrade(Some(assessment), Some([])) == Err(ResultService.NoAnswersSubmitted)
    ensures ControllerGrade(Some(assessment), Some([])) == Err(BadRequest("Assessment has no questions"))
  {
  }
}
