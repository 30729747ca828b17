/** AssessmentsController.SubmitAssessment and its helpers: its own checks,
    a call into ResultService for the score, and its own count of correct
    answers, which does not read points. */
module AssessmentsController {
  import opened Outcomes
  import opened Ids
  import opened JsonTree
  import opened Grading
  import opened GradingStore
  import Numeric
  import ResultService

  /** The anonymous object returned with 200 OK. Percentage in hundredths. */
  datatype SubmitBody = SubmitBody(
    score: int,
    maxScore: int,
    percentage: int,
    isPassed: bool,
    attemptDate: Timestamp,
    correctAnswers: nat,
    totalQuestions: nat)

  datatype Response =
    | Unauthorized          // no user id claim in the token
    | NotFound
    | BadRequest(text: string)
    | ServerError           // any exception reaching the outer catch: 500
    | Success(body: SubmitBody)

  /** The controller's own checks, after the assessment is found: the
      decoded entries, or the response that ends the request. */
  function Precheck(assessment: Assessment, answers: Option<seq<Answer>>): (r: Outcome<seq<Json>, Response>)
    ensures r.Ok? ==> !ResultService.NoAnswers(answers)
    ensures r.Ok? ==> DeserializeList(assessment.questions) == Items(r.value)
    ensures r.Err? ==> r.error.BadRequest?
    /** Present answers and an array root always pass. */
    ensures !ResultService.NoAnswers(answers) && DeserializeList(assessment.questions).Items? ==>
              r == Ok(DeserializeList(assessment.questions).entries)
    /** Which 400 each rejected input gets, in the order of the checks. */
    ensures ResultService.NoAnswers(answers) ==> r == Err(BadRequest("No answers were submitted"))
    ensures !ResultService.NoAnswers(answers) && (assessment.questions.NullText? || assessment.questions.EmptyText?) ==>
              r == Err(BadRequest("Assessment has no questions"))
    ensures !ResultService.NoAnswers(answers) && !(assessment.questions.NullText? || assessment.questions.EmptyText?) &&
            !DeserializeList(assessment.questions).Items? ==>
              r == Err(BadRequest("Invalid question format"))
  {
    if ResultService.NoAnswers(answers) then Err(BadRequest("No answers were submitted"))
    else if assessment.questions.NullText? || assessment.questions.EmptyText? then
      Err(BadRequest("Assessment has no questions"))
    else
      match DeserializeList(assessment.questions)
      case Items(entries) => Ok(entries)
      // a JSON null makes questions.Count throw inside the same try
      case _ => Err(BadRequest("Invalid question format"))
  }

  method SubmitAssessment(db: GradingDb, id: Guid, userClaim: Option<Guid>, submission: ResultService.ResultDto,
                          newId: Guid, now: Timestamp)
    returns (resp: Response)
    requires db.Valid() && newId !in db.ResultIds()
    modifies db
    ensures db.Valid() && db.assessments == old(db.assessments)
    ensures |old(db.results)| <= |db.results| <= |old(db.results)| + 1 && db.results[..|old(db.results)|] == old(db.results)
    ensures userClaim.None? ==> resp == Unauthorized && db.results == old(db.results)
    ensures userClaim.Some? && id !in old(db.assessments) ==> resp == NotFound && db.results == old(db.results)
    ensures userClaim.Some? && id in old(db.assessments) && Precheck(old(db.assessments)[id], submission.submittedAnswers).Err? ==>
              resp == Precheck(old(db.assessments)[id], submission.submittedAnswers).error && db.results == old(db.results)
    ensures userClaim.Some? && id in old(db.assessments) && Precheck(old(db.assessments)[id], submission.submittedAnswers).Ok? ==>
              var a := old(db.assessments)[id];
              var entries := Precheck(a, submission.submittedAnswers).value;
              var g := ResultService.ServiceGrade(Some(a), submission.submittedAnswers);
              && (g.Err? ==> resp == ServerError && db.results == old(db.results))
              && (g.Ok? ==>
                    && db.results == old(db.results) + [ResultRecord(newId, id, userClaim.value, g.value.totalScore,
                                                                     g.value.percentage, g.value.isPassed, now)]
                    && resp == Success(SubmitBody(g.value.totalScore, a.maxScore, g.value.percentage, g.value.isPassed, now,
                                                  CorrectKeys(Keys(entries), BuildIndex(submission.submittedAnswers.value).value),
                                                  |entries|)))
  {
    if userClaim.None? {
      return Unauthorized;
    }
    var userId := userClaim.value;
    var assessment := db.FindAssessment(id);
    if assessment.None? {
      return NotFound;
    }
    var checked := Precheck(assessment.value, submission.submittedAnswers);
    if checked.Err? {
      return checked.error;
    }
    var questions := checked.value;
    // the route id and the token's user replace whatever the body carried
    var attributed := submission.(assessmentId := id, userId := userId);
    var result := ResultService.CalculateResultAsync(db, attributed, newId, now);
    if result.Err? {
      return ServerError;
    }
    var totalQuestions := |questions|;
    var index := BuildIndex(submission.submittedAnswers.value);
    var correctAnswersCount := CountCorrectAnswers(index.value, questions);
    return Success(SubmitBody(result.value.score, assessment.value.maxScore, result.value.percentage,
                              result.value.isPassed, result.value.attemptDate, correctAnswersCount, totalQuestions));
  }

  // ---------------------------------------------------------------------------
  // CalculateScore (unused by the endpoints)

  /** (int)Math.Round((double)correct / total * maxScore), on the exact
      rational with round-half-to-even. */
  function ScaledScore(correct: nat, total: nat, maxScore: int): int
    requires total > 0
  {
    Numeric.RoundHalfEven(correct * maxScore, total)
  }

  /** CalculateScore: 0 for a null or empty list, otherwise the share of
      correct answers scaled to maxScore. */
  method CalculateScore(answers: AnswerIndex, questions: Option<seq<Json>>, maxScore: int) returns (finalScore: int)
    ensures questions.None? || |questions.value| == 0 ==> finalScore == 0
    ensures questions.Some? && |questions.value| > 0 ==>
              finalScore == ScaledScore(CorrectKeys(Keys(questions.value), answers), |questions.value|, maxScore)
  {
    if questions.None? || |questions.value| == 0 {
      return 0;
    }
    var correctAnswers := CountCorrectAnswers(answers, questions.value);
    var totalQuestions := |questions.value|;
    finalScore := ScaledScore(correctAnswers, totalQuestions, maxScore);
  }

  /** The scaled score never leaves [0, maxScore], is 0 with nothing
      correct and maxScore with everything correct. */
  lemma ScaledScoreRange(correct: nat, total: nat, maxScore: int)
    requires 0 < total && correct <= total && maxScore >= 0
    ensures 0 <= ScaledScore(correct, total, maxScore) <= maxScore
    ensures correct == 0 ==> ScaledScore(correct, total, maxScore) == 0
    ensures correct == total ==> ScaledScore(correct, total, maxScore) == maxScore
  {
    assert 0 <= correct * maxScore <= total * maxScore by {
      assert correct * maxScore == maxScore * correct && total * maxScore == maxScore * total;
      if correct < total && maxScore > 0 { Numeric.MulStep(total, correct, maxScore); }
    }
    Numeric.RoundHalfEvenMonotone(0, correct * maxScore, total);
    Numeric.RoundHalfEvenMonotone(correct * maxScore, maxScore * total, total);
    Numeric.RoundHalfEvenExact(0, total);
    Numeric.RoundHalfEvenExact(maxScore, total);
  }

  /** The count the endpoint reports never exceeds its totalQuestions, and
      it is at least the number of answers the stored score counted. */
  lemma ReportedCountBounds(entries: seq<Json>, index: AnswerIndex)
    ensures TallyOf(Questions(entries), index).correctAnswers <= CorrectKeys(Keys(entries), index) <= |entries|
  {
    CountIgnoringPoints(entries, index);
    KeysCountBound(Keys(entries), index);
  }

  lemma {:induction false} KeysCountBound(ks: seq<AnswerKey>, index: AnswerIndex)
    ensures CorrectKeys(ks, index) <= |ks|
  {
    if ks != [] {
      KeysCountBound(ks[..|ks| - 1], index);
    }
  }

  /** The blob "[]" passes the controller's own checks and fails only inside
      ResultService, so the endpoint answers 500 rather than 400. */
  lemma EmptyArrayPassesPrecheck(assessment: Assessment, answers: seq<Answer>)
    requires |answers| > 0 && assessment.questions == Document(JArr([]))
    ensures Precheck(assessment, Some(answers)) == Ok([])
    ensures ResultService.ServiceGrade(Some(assessment), Some(answers)) == Err(ResultService.NoQuestions)
  {
  }
}
