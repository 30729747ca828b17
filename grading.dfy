/** The grading routine shared by ResultService.CalculateResultAsync,
    ResultsController.CalculateResult and AssessmentsController: reading one
    question entry, indexing the submitted answers, accumulating the score and
    the number of correct answers, and turning them into a percentage and a
    pass verdict. The three call sites differ only in the checks around it. */
module Grading {
  import opened Outcomes
  import opened JsonTree
  import Numeric

  /** PASS_PERCENTAGE, the same constant in both copies that declare it. */
  const PassPercentage: int := 70

  /** One submitted (QuestionId, SelectedAnswerId) pair. */
  datatype Answer = Answer(questionId: string, selectedAnswerId: string)

  type AnswerIndex = map<string, string>

  // ---------------------------------------------------------------------------
  // The answer dictionary (Enumerable.ToDictionary)

  predicate DistinctQuestionIds(answers: seq<Answer>) {
    forall i, j :: 0 <= i < j < |answers| ==> answers[i].questionId != answers[j].questionId
  }

  function QuestionIds(answers: seq<Answer>): set<string> {
    set a | a in answers :: a.questionId
  }

  /** ToDictionary(a => a.QuestionId, a => a.SelectedAnswerId): None when
      it would throw on a repeated key. */
  function BuildIndex(answers: seq<Answer>): (r: Option<AnswerIndex>)
    ensures r.Some? <==> DistinctQuestionIds(answers)
    ensures r.Some? ==> r.value.Keys == QuestionIds(answers)
    ensures r.Some? ==> forall i :: 0 <= i < |answers| ==>
              r.value[answers[i].questionId] == answers[i].selectedAnswerId
  {
    if answers == [] then Some(map[])
    else
      var init, last := answers[..|answers| - 1], answers[|answers| - 1];
      assert answers == init + [last];
      match BuildIndex(init)
      case None =>
        DistinctPrefix(init, last);
        None
      case Some(m) =>
        if last.questionId in m then
          RepeatedLast(init, last);
          None
        else
          IndexSnoc(init, last, m);
          Some(m[last.questionId := last.selectedAnswerId])
  }

  lemma DistinctPrefix(init: seq<Answer>, last: Answer)
    requires !DistinctQuestionIds(init)
    ensures !DistinctQuestionIds(init + [last])
  {
    var i, j :| 0 <= i < j < |init| && init[i].questionId == init[j].questionId;
    assert (init + [last])[i] == init[i] && (init + [last])[j] == init[j];
  }

  lemma RepeatedLast(init: seq<Answer>, last: Answer)
    requires last.questionId in QuestionIds(init)
    ensures !DistinctQuestionIds(init + [last])
  {
    var a :| a in init && a.questionId == last.questionId;
    var k :| 0 <= k < |init| && init[k] == a;
    assert (init + [last])[k] == a && (init + [last])[|init|] == last;
  }

  lemma IndexSnoc(init: seq<Answer>, last: Answer, m: AnswerIndex)
    requires DistinctQuestionIds(init)
    requires m.Keys == QuestionIds(init)
    requires forall i :: 0 <= i < |init| ==> m[init[i].questionId] == init[i].selectedAnswerId
    requires last.questionId !in m
    ensures DistinctQuestionIds(init + [last])
    ensures m[last.questionId := last.selectedAnswerId].Keys == QuestionIds(init + [last])
    ensures forall i :: 0 <= i < |init + [last]| ==>
              m[last.questionId := last.selectedAnswerId][(init + [last])[i].questionId] == (init + [last])[i].selectedAnswerId
  {
    var answers := init + [last];
    assert forall i :: 0 <= i < |init| ==> answers[i] == init[i] && init[i] in init;
    assert forall a :: a in answers <==> a in init || a == last;
  }

  // ---------------------------------------------------------------------------
  // One question entry

  /** The fields of an entry that decide correctness. */
  datatype AnswerKey = AnswerKey(id: string, correctOption: string)

  /** A question as the grading loop sees it once every field has been read. */
  datatype Question = Question(id: string, points: int, correctOption: string)

  /** The correctOption value as a string: a JSON string verbatim, an Int32
      through ToString(); None for any other kind, and for a number on which
      GetInt32 throws. */
  function CorrectOptionText(v: Json): (r: Option<string>)
    ensures r.Some? <==> v.JStr? || v.JInt?
  {
    match v
    case JStr(s) => Some(s)
    case JInt(i) => Some(Numeric.DecimalString(i))
    case _ => None
  }

  /** The id and correct option of an entry, or None when the entry is
      skipped: not an object, id missing or not a string, correctOption
      missing or neither a string nor an Int32. */
  function KeyOf(entry: Json): Option<AnswerKey> {
    match TryGetProperty(entry, "id")
    case Present(JStr(id)) =>
      (match TryGetProperty(entry, "correctOption")
       case Present(c) =>
         (match CorrectOptionText(c)
          case Some(text) => Some(AnswerKey(id, text))
          case None => None)
       case _ => None)
    case _ => None
  }

  /** The points of an object entry: 1 when absent or not a number, the
      Int32 value verbatim, None when GetInt32 throws. */
  function PointsOf(entry: Json): Option<int> {
    match TryGetProperty(entry, "points")
    case Present(JInt(p)) => Some(p)
    case Present(JOtherNum) => None
    case _ => Some(1)
  }

  /** The entry as the score loop reads it: both the key and the points. */
  function ParseEntry(entry: Json): Option<Question> {
    match KeyOf(entry)
    case None => None
    case Some(k) =>
      match PointsOf(entry)
      case None => None
      case Some(p) => Some(Question(k.id, p, k.correctOption))
  }

  /** When an entry is accepted, in terms of the JSON it holds. */
  lemma ParseEntryAccepts(entry: Json, q: Question)
    ensures ParseEntry(entry) == Some(q) <==>
      && entry.JObj?
      && "id" in entry.fields && entry.fields["id"] == JStr(q.id)
      && "correctOption" in entry.fields
      && (|| entry.fields["correctOption"] == JStr(q.correctOption)
          || (entry.fields["correctOption"].JInt?
              && q.correctOption == Numeric.DecimalString(entry.fields["correctOption"].i)))
      && (if "points" !in entry.fields || !(entry.fields["points"].JInt? || entry.fields["points"].JOtherNum?)
          then q.points == 1
          else entry.fields["points"].JInt? && entry.fields["points"].i == q.points)
  {
  }

  /** Ordinal string equality: no trimming, no case folding. */
  predicate IsCorrect(index: AnswerIndex, id: string, correctOption: string) {
    id in index && index[id] == correctOption
  }

  // ---------------------------------------------------------------------------
  // The score loop, specified by functions over prefixes

  /** The questions the score loop accepts, in entry order. */
  function Questions(entries: seq<Json>): (qs: seq<Question>)
    ensures |qs| <= |entries|
  {
    if entries == [] then []
    else
      var init := Questions(entries[..|entries| - 1]);
      match ParseEntry(entries[|entries| - 1])
      case Some(q) => init + [q]
      case None => init
  }

  /** The keys the counting loop accepts (it never reads points). */
  function Keys(entries: seq<Json>): (ks: seq<AnswerKey>)
    ensures |ks| <= |entries|
  {
    if entries == [] then []
    else
      var init := Keys(entries[..|entries| - 1]);
      match KeyOf(entries[|entries| - 1])
      case Some(k) => init + [k]
      case None => init
  }

  datatype Tally = Tally(totalScore: int, correctAnswers: nat)

  /** One question's effect on the running totals. */
  function AddQuestion(t: Tally, q: Question, index: AnswerIndex): Tally {
    if IsCorrect(index, q.id, q.correctOption) then Tally(t.totalScore + q.points, t.correctAnswers + 1) else t
  }

  function TallyOf(qs: seq<Question>, index: AnswerIndex): Tally {
    if qs == [] then Tally(0, 0) else AddQuestion(TallyOf(qs[..|qs| - 1], index), qs[|qs| - 1], index)
  }

  /** One key's effect on the running count. */
  function AddKey(n: nat, k: AnswerKey, index: AnswerIndex): nat {
    if IsCorrect(index, k.id, k.correctOption) then n + 1 else n
  }

  function CorrectKeys(ks: seq<AnswerKey>, index: AnswerIndex): nat {
    if ks == [] then 0 else AddKey(CorrectKeys(ks[..|ks| - 1], index), ks[|ks| - 1], index)
  }

  function SumPoints(qs: seq<Question>): int {
    if qs == [] then 0 else SumPoints(qs[..|qs| - 1]) + qs[|qs| - 1].points
  }

  lemma QuestionsSnoc(init: seq<Json>, e: Json)
    ensures Questions(init + [e]) == if ParseEntry(e).Some? then Questions(init) + [ParseEntry(e).value] else Questions(init)
  {
    assert (init + [e])[..|init|] == init;
  }

  lemma KeysSnoc(init: seq<Json>, e: Json)
    ensures Keys(init + [e]) == if KeyOf(e).Some? then Keys(init) + [KeyOf(e).value] else Keys(init)
  {
    assert (init + [e])[..|init|] == init;
  }

  lemma TallySnoc(qs: seq<Question>, q: Question, index: AnswerIndex)
    ensures TallyOf(qs + [q], index) == AddQuestion(TallyOf(qs, index), q, index)
  {
    assert (qs + [q])[..|qs|] == qs;
  }

  lemma CorrectKeysSnoc(ks: seq<AnswerKey>, k: AnswerKey, index: AnswerIndex)
    ensures CorrectKeys(ks + [k], index) == AddKey(CorrectKeys(ks, index), k, index)
  {
    assert (ks + [k])[..|ks|] == ks;
  }

  /** What one more entry does to the score loop's totals. */
  lemma ScoreStep(entries: seq<Json>, i: nat, index: AnswerIndex)
    requires i < |entries|
    ensures var t := TallyOf(Questions(entries[..i]), index);
            TallyOf(Questions(entries[..i + 1]), index) ==
              if ParseEntry(entries[i]).Some? then AddQuestion(t, ParseEntry(entries[i]).value, index) else t
  {
    assert entries[..i + 1] == entries[..i] + [entries[i]];
    QuestionsSnoc(entries[..i], entries[i]);
    if ParseEntry(entries[i]).Some? {
      TallySnoc(Questions(entries[..i]), ParseEntry(entries[i]).value, index);
    }
  }

  /** What one more entry does to the counting loop's total. */
  lemma CountStep(entries: seq<Json>, i: nat, index: AnswerIndex)
    requires i < |entries|
    ensures var n := CorrectKeys(Keys(entries[..i]), index);
            CorrectKeys(Keys(entries[..i + 1]), index) ==
              if KeyOf(entries[i]).Some? then AddKey(n, KeyOf(entries[i]).value, index) else n
  {
    assert entries[..i + 1] == entries[..i] + [entries[i]];
    KeysSnoc(entries[..i], entries[i]);
    if KeyOf(entries[i]).Some? {
      CorrectKeysSnoc(Keys(entries[..i]), KeyOf(entries[i]).value, index);
    }
  }

  /** The foreach over the question entries in the score-keeping copies:
      skipped entries add nothing, a correct answer adds its points and one. */
  method ScoreEntries(entries: seq<Json>, index: AnswerIndex) returns (totalScore: int, correctAnswersCount: nat)
    ensures Tally(totalScore, correctAnswersCount) == TallyOf(Questions(entries), index)
  {
    totalScore, correctAnswersCount := 0, 0;
    var i := 0;
    while i < |entries|
      invariant 0 <= i <= |entries|
      invariant Tally(totalScore, correctAnswersCount) == TallyOf(Questions(entries[..i]), index)
    {
      ScoreStep(entries, i, index);
      var question := ParseEntry(entries[i]);
      if question.Some? {
        var q := question.value;
        if q.id in index && index[q.id] == q.correctOption {
          totalScore := totalScore + q.points;
          correctAnswersCount := correctAnswersCount + 1;
        }
      }
      i := i + 1;
    }
    assert entries[..i] == entries;
  }

  /** The correct-answer loop of SubmitAssessment and CountCorrectAnswers:
      the same per-entry rules without reading points. */
  method CountCorrectAnswers(index: AnswerIndex, entries: seq<Json>) returns (correctAnswers: nat)
    ensures correctAnswers == CorrectKeys(Keys(entries), index)
  {
    correctAnswers := 0;
    var i := 0;
    while i < |entries|
      invariant 0 <= i <= |entries|
      invariant correctAnswers == CorrectKeys(Keys(entries[..i]), index)
    {
      CountStep(entries, i, index);
      var key := KeyOf(entries[i]);
      if key.Some? {
        var k := key.value;
        if k.id in index && index[k.id] == k.correctOption {
          correctAnswers := correctAnswers + 1;
        }
      }
      i := i + 1;
    }
    assert entries[..i] == entries;
  }

  // ---------------------------------------------------------------------------
  // Properties of the tally

  /** At most one correct answer per accepted question; with non-negative
      points the score lies between 0 and the sum of all accepted points. */
  lemma {:induction false} TallyBounds(qs: seq<Question>, index: AnswerIndex)
    ensures TallyOf(qs, index).correctAnswers <= |qs|
    ensures (forall i :: 0 <= i < |qs| ==> qs[i].points >= 0) ==>
              0 <= TallyOf(qs, index).totalScore <= SumPoints(qs)
  {
    if qs != [] {
      var init := qs[..|qs| - 1];
      TallyBounds(init, index);
      assert forall i :: 0 <= i < |init| ==> init[i] == qs[i];
    }
  }

  /** Answering every accepted question correctly earns every point. */
  lemma {:induction false} TallyAllCorrect(qs: seq<Question>, index: AnswerIndex)
    requires forall i :: 0 <= i < |qs| ==> IsCorrect(index, qs[i].id, qs[i].correctOption)
    ensures TallyOf(qs, index) == Tally(SumPoints(qs), |qs|)
  {
    if qs != [] {
      var init := qs[..|qs| - 1];
      assert forall i :: 0 <= i < |init| ==> init[i] == qs[i];
      TallyAllCorrect(init, index);
    }
  }

  /** With no submitted answer matching, nothing is earned. */
  lemma {:induction false} TallyNoneCorrect(qs: seq<Question>, index: AnswerIndex)
    requires forall i :: 0 <= i < |qs| ==> !IsCorrect(index, qs[i].id, qs[i].correctOption)
    ensures TallyOf(qs, index) == Tally(0, 0)
  {
    if qs != [] {
      var init := qs[..|qs| - 1];
      assert forall i :: 0 <= i < |init| ==> init[i] == qs[i];
      TallyNoneCorrect(init, index);
    }
  }

  predicate PointsReadable(entry: Json) {
    PointsOf(entry).Some?
  }

  /** The counting loop, which never reads points, counts at least as many
      correct answers as the score loop, and exactly as many when no entry
      holds a points number GetInt32 rejects. */
  lemma {:induction false} CountIgnoringPoints(entries: seq<Json>, index: AnswerIndex)
    ensures TallyOf(Questions(entries), index).correctAnswers <= CorrectKeys(Keys(entries), index)
    ensures (forall i :: 0 <= i < |entries| ==> PointsReadable(entries[i])) ==>
              TallyOf(Questions(entries), index).correctAnswers == CorrectKeys(Keys(entries), index)
  {
    if entries != [] {
      var i := |entries| - 1;
      CountIgnoringPoints(entries[..i], index);
      assert forall j :: 0 <= j < i ==> entries[..i][j] == entries[j];
      ScoreStep(entries, i, index);
      CountStep(entries, i, index);
      assert entries[..i + 1] == entries;
      EntryCounts(TallyOf(Questions(entries[..i]), index), CorrectKeys(Keys(entries[..i]), index), entries[i], index);
    }
  }

  /** One entry adds a correct answer to the score loop only if it adds one
      to the counting loop, and to both alike when its points are readable. */
  lemma EntryCounts(t: Tally, n: nat, e: Json, index: AnswerIndex)
    requires t.correctAnswers <= n
    ensures var t' := if ParseEntry(e).Some? then AddQuestion(t, ParseEntry(e).value, index) else t;
            var n' := if KeyOf(e).Some? then AddKey(n, KeyOf(e).value, index) else n;
            && t'.correctAnswers <= n'
            && (t.correctAnswers == n && PointsReadable(e) ==> t'.correctAnswers == n')
  {
  }

  // ---------------------------------------------------------------------------
  // Percentage and verdict

  /** Math.Round((double)totalScore / maxScore * 100, 2) in hundredths of a
      percent, on the exact rational; 0 when maxScore <= 0. */
  function Percentage(totalScore: int, maxScore: int): (p: int)
    ensures maxScore > 0 ==> -maxScore <= 2 * (totalScore * 10000 - p * maxScore) <= maxScore
    ensures maxScore <= 0 ==> p == 0
  {
    if maxScore > 0 then Numeric.RoundHalfEven(totalScore * 10000, maxScore) else 0
  }

  /** percentage >= PASS_PERCENTAGE, in hundredths. */
  predicate IsPassed(percentage: int) {
    percentage >= PassPercentage * 100
  }

  /** The verdict in terms of the score alone: passing needs a positive
      maxScore and, on exact rationals, a score of at least 69.995% of it
      (that midpoint rounds to the even 70.00; in doubles the quotient can
      fall just below it). */
  lemma PassedIff(totalScore: int, maxScore: int)
    ensures IsPassed(Percentage(totalScore, maxScore)) <==>
              maxScore > 0 && 20000 * totalScore >= 13999 * maxScore
  {
    if maxScore > 0 {
      var n := totalScore * 10000;
      var k := Percentage(totalScore, maxScore);
      if k >= 7000 {
        Numeric.MulStep(k + 1, 7000, maxScore);
      } else if 2 * n == 13999 * maxScore {
        Numeric.RoundHalfEvenTie(n, maxScore, 6999);
      } else if 2 * n > 13999 * maxScore {
        Numeric.MulStep(7000, k, maxScore);
        assert false;
      }
    }
  }

  /** A score between 0 and maxScore gives a percentage between 0 and 100. */
  lemma PercentageRange(totalScore: int, maxScore: int)
    requires maxScore > 0 && 0 <= totalScore <= maxScore
    ensures 0 <= Percentage(totalScore, maxScore) <= 10000
  {
    Numeric.RoundHalfEvenMonotone(0, totalScore * 10000, maxScore);
    Numeric.RoundHalfEvenMonotone(totalScore * 10000, maxScore * 10000, maxScore);
    Numeric.RoundHalfEvenExact(0, maxScore);
    Numeric.RoundHalfEvenExact(10000, maxScore);
  }

  /** A full score is exactly 100.00%. */
  lemma PercentageFull(maxScore: int)
    requires maxScore > 0
    ensures Percentage(maxScore, maxScore) == 10000
  {
    Numeric.RoundHalfEvenExact(10000, maxScore);
  }

  /** What grading yields, before anything is stored. */
  datatype Graded = Graded(totalScore: int, correctAnswers: nat, percentage: int, isPassed: bool)

  function Grade(entries: seq<Json>, index: AnswerIndex, maxScore: int): (g: Graded)
    ensures g.correctAnswers <= |entries|
    ensures g.isPassed <==> maxScore > 0 && 20000 * g.totalScore >= 13999 * maxScore
  {
    var t := TallyOf(Questions(entries), index);
    TallyBounds(Questions(entries), index);
    PassedIff(t.totalScore, maxScore);
    var p := Percentage(t.totalScore, maxScore);
    Graded(t.totalScore, t.correctAnswers, p, IsPassed(p))
  }
}
