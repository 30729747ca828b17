/** ResultService.CalculateResultAsync: find the assessment, insist on
    answers, decode the questions, grade, and append one Result. */
module ResultService {
  import opened Outcomes
  import opened Ids
  import opened JsonTree
  import opened Grading
  import opened GradingStore

  /** The ResultDto the service receives. A null answer list is None. */
  datatype ResultDto = ResultDto(assessmentId: Guid, userId: Guid, submittedAnswers: Option<seq<Answer>>)

  /** The exceptions the service lets escape, in the order it can raise them. */
  datatype ServiceError =
    | AssessmentNotFound     // "Assessment not found"
    | NoAnswersSubmitted     // "No answers were submitted"
    | QuestionsNull          // ArgumentNullException from Deserialize on a null text
    | InvalidQuestionFormat  // "Invalid question format: ..."
    | NoQuestions            // "Assessment has no questions"
    | NonObjectEntry         // the logging loop calls TryGetProperty outside the per-entry catch
    | DuplicateQuestionId    // ToDictionary on a repeated QuestionId

  predicate NoAnswers(answers: Option<seq<Answer>>) {
    answers.None? || |answers.value| == 0
  }

  predicate AllObjects(entries: seq<Json>) {
    forall i :: 0 <= i < |entries| ==> entries[i].JObj?
  }

  /** The grading the service performs, checks in source order. */
  function ServiceGrade(assessment: Option<Assessment>, answers: Option<seq<Answer>>): (r: Outcome<Graded, ServiceError>)
    ensures r.Ok? ==> assessment.Some? && !NoAnswers(answers) && DistinctQuestionIds(answers.value)
    ensures r.Ok? ==> var d := DeserializeList(assessment.value.questions);
                      d.Items? && |d.entries| > 0 && AllObjects(d.entries)
    ensures assessment.None? ==> r == Err(AssessmentNotFound)
    ensures assessment.Some? && NoAnswers(answers) ==> r == Err(NoAnswersSubmitted)
    ensures assessment.Some? && !NoAnswers(answers) ==>
              var d := DeserializeList(assessment.value.questions);
              && (d.ArgumentNull? ==> r == Err(QuestionsNull))
              && (d.JsonError? ==> r == Err(InvalidQuestionFormat))
              && (d.NullList? || (d.Items? && |d.entries| == 0) ==> r == Err(NoQuestions))
              && (d.Items? && |d.entries| > 0 && !AllObjects(d.entries) ==> r == Err(NonObjectEntry))
    /** Valid input is graded: a found assessment, distinct answers and a
        non-empty array of objects give the grade of those entries. */
    ensures assessment.Some? && !NoAnswers(answers) && DistinctQuestionIds(answers.value) ==>
              var d := DeserializeList(assessment.value.questions);
              d.Items? && |d.entries| > 0 && AllObjects(d.entries) ==>
                r == Ok(Grade(d.entries, BuildIndex(answers.value).value, assessment.value.maxScore))
  {
    if assessment.None? then Err(AssessmentNotFound)
    else if NoAnswers(answers) then Err(NoAnswersSubmitted)
    else
      match DeserializeList(assessment.value.questions)
      case ArgumentNull => Err(QuestionsNull)
      case JsonError => Err(InvalidQuestionFormat)
      case NullList => Err(NoQuestions)
      case Items(entries) =>
        if |entries| == 0 then Err(NoQuestions)
        else if !AllObjects(entries) then Err(NonObjectEntry)
        else
          match BuildIndex(answers.value)
          case None => Err(DuplicateQuestionId)
          case Some(index) => Ok(Grade(entries, index, assessment.value.maxScore))
  }

  /** The logging loop over the entries: it completes only when every entry
      is a JSON object. */
  method InspectEntries(entries: seq<Json>) returns (ok: bool)
    ensures ok <==> AllObjects(entries)
  {
    var i := 0;
    while i < |entries|
      invariant 0 <= i <= |entries|
      invariant AllObjects(entries[..i])
    {
      if !entries[i].JObj? {
        return false;
      }
      assert entries[..i + 1] == entries[..i] + [entries[i]];
      i := i + 1;
    }
    assert entries[..i] == entries;
    return true;
  }

  /** CalculateResultAsync. GUID and clock values are parameters; newId is
      fresh, as Guid.NewGuid() is in practice. */
  method CalculateResultAsync(db: GradingDb, dto: ResultDto, newId: Guid, now: Timestamp)
    returns (r: Outcome<ResultRecord, ServiceError>)
    requires db.Valid() && newId !in db.ResultIds()
    modifies db
    ensures db.Valid() && db.assessments == old(db.assessments)
    ensures var g := ServiceGrade(old(db.FindAssessment(dto.assessmentId)), dto.submittedAnswers);
            && (g.Err? ==> r == Err(g.error) && db.results == old(db.results))
            && (g.Ok? ==> && r == Ok(ResultRecord(newId, dto.assessmentId, dto.userId, g.value.totalScore,
                                                 g.value.percentage, g.value.isPassed, now))
                          && db.results == old(db.results) + [r.value])
  {
    var assessment := db.FindAssessment(dto.assessmentId);
    if assessment.None? {
      return Err(AssessmentNotFound);
    }
    if dto.submittedAnswers.None? || |dto.submittedAnswers.value| == 0 {
      return Err(NoAnswersSubmitted);
    }
    var questions: seq<Json>;
    match DeserializeList(assessment.value.questions) {
      case ArgumentNull => return Err(QuestionsNull);
      case JsonError => return Err(InvalidQuestionFormat);
      case NullList => return Err(NoQuestions);
      case Items(entries) => questions := entries;
    }
    if |questions| == 0 {
      return Err(NoQuestions);
    }
    var inspected := InspectEntries(questions);
    if !inspected {
      return Err(NonObjectEntry);
    }
    var index := BuildIndex(dto.submittedAnswers.value);
    if index.None? {
      return Err(DuplicateQuestionId);
    }
    var totalScore, correctAnswersCount := ScoreEntries(questions, index.value);
    var maxPossibleScore := assessment.value.maxScore;
    var percentage := Percentage(totalScore, maxPossibleScore);
    var isPassed := IsPassed(percentage);
    var result := ResultRecord(newId, dto.assessmentId, dto.userId, totalScore, percentage, isPassed, now);
    db.AddResult(result);
    return Ok(result);
  }

  // ---------------------------------------------------------------------------
  // Properties of the service's grading

  /** A graded submission: passing is decided by the score alone, at most one
      correct answer per entry, and with non-negative points a score between
      0 and the sum of the accepted questions' points. */
  lemma ServiceOutcomeBounds(assessment: Option<Assessment>, answers: Option<seq<Answer>>)
    requires ServiceGrade(assessment, answers).Ok?
    ensures var g := ServiceGrade(assessment, answers).value;
            var entries := DeserializeList(assessment.value.questions).entries;
            var m := assessment.value.maxScore;
            && g.correctAnswers <= |Questions(entries)| <= |entries|
            && (g.isPassed <==> m > 0 && 20000 * g.totalScore >= 13999 * m)
            && ((forall i :: 0 <= i < |Questions(entries)| ==> Questions(entries)[i].points >= 0) ==>
                  0 <= g.totalScore <= SumPoints(Questions(entries)))
            && (m > 0 && 0 <= g.totalScore <= m ==> 0 <= g.percentage <= 10000)
  {
    var entries := DeserializeList(assessment.value.questions).entries;
    var index := BuildIndex(answers.value).value;
    var g := ServiceGrade(assessment, answers).value;
    TallyBounds(Questions(entries), index);
    if assessment.value.maxScore > 0 && 0 <= g.totalScore <= assessment.value.maxScore {
      PercentageRange(g.totalScore, assessment.value.maxScore);
    }
  }

  /** A question list that decodes to null or to [] is rejected, once
      answers are present. */
  lemma ServiceRejectsEmptyQuestionList(assessment: Assessment, answers: seq<Answer>)
    requires |answers| > 0
    requires assessment.questions == Document(JNull) || assessment.questions == Document(JArr([]))
    ensures ServiceGrade(Some(assessment), Some(answers)) == Err(NoQuestions)
  {
  }

  /** One entry that is not an object aborts the whole grading, even though
      the score loop would have skipped it. */
  lemma ServiceAbortsOnNonObject(assessment: Assessment, answers: seq<Answer>, k: nat)
    requires |answers| > 0
    requires assessment.questions.Document? && assessment.questions.root.JArr?
    requires k < |assessment.questions.root.items| && !assessment.questions.root.items[k].JObj?
    ensures ServiceGrade(Some(assessment), Some(answers)) == Err(NonObjectEntry)
  {
  }

  /** A QuestionId submitted twice aborts grading when the questions are usable. */
  lemma ServiceRejectsDuplicateIds(assessment: Assessment, answers: seq<Answer>, i: nat, j: nat)
    requires i < j < |answers| && answers[i].questionId == answers[j].questionId
    requires var d := DeserializeList(assessment.questions); d.Items? && |d.entries| > 0 && AllObjects(d.entries)
    ensures ServiceGrade(Some(assessment), Some(answers)) == Err(DuplicateQuestionId)
  {
  }
}
