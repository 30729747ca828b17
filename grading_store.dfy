/** The two tables the grading code touches: Assessments, which it only
    reads, and Results, to which a successful grading appends one row. */
module GradingStore {
  import opened Outcomes
  import opened Ids
  import opened JsonTree

  datatype Assessment = Assessment(
    assessmentId: Guid,
    courseId: Guid,
    title: string,
    questions: QuestionsText,
    maxScore: int)

  /** A stored Result row. Percentage is kept in hundredths of a percent. */
  datatype ResultRecord = ResultRecord(
    resultId: Guid,
    assessmentId: Guid,
    userId: Guid,
    score: int,
    percentage: int,
    isPassed: bool,
    attemptDate: Timestamp)

  class GradingDb {
    var assessments: map<Guid, Assessment>
    var results: seq<ResultRecord>

    /** Each assessment is filed under its own id and no two results share
        a ResultId. */
    ghost predicate Valid()
      reads this
    {
      && (forall id :: id in assessments ==> assessments[id].assessmentId == id)
      && (forall i, j :: 0 <= i < j < |results| ==> results[i].resultId != results[j].resultId)
    }

    function ResultIds(): (ids: set<Guid>)
      reads this
      ensures forall i :: 0 <= i < |results| ==> results[i].resultId in ids
      ensures forall id :: id in ids ==> exists i :: 0 <= i < |results| && results[i].resultId == id
    {
      set r | r in results :: r.resultId
    }

    /** Assessments.FindAsync(id). */
    function FindAssessment(id: Guid): (a: Option<Assessment>)
      reads this
      ensures a.Some? <==> id in assessments
      ensures a.Some? ==> a.value == assessments[id]
    {
      if id in assessments then Some(assessments[id]) else None
    }

    constructor (assessments: map<Guid, Assessment>)
      requires forall id :: id in assessments ==> assessments[id].assessmentId == id
      ensures Valid()
      ensures this.assessments == assessments && results == []
    {
      this.assessments := assessments;
      results := [];
    }

    /** Results.Add followed by SaveChangesAsync: append-only. */
    method AddResult(r: ResultRecord)
      requires Valid()
      requires r.resultId !in ResultIds()
      modifies this
      ensures Valid()
      ensures results == old(results) + [r]
      ensures assessments == old(assessments)
    {
      results := results + [r];
    }
  }
}
