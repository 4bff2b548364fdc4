/** The statistics of components/Dashboard.tsx, computed from the results of
    the session: attempts taken, overall accuracy, perfect attempts and the
    per-attempt chart labels. */
module Dashboard {
  import opened Types

  /** `results.reduce((acc, r) => acc + r.score, 0)`. */
  function TotalScore(results: seq<QuizResult>): (r: int)
    ensures (forall k :: 0 <= k < |results| ==> results[k].score >= 0) ==> r >= 0
  {
    if results == [] then 0 else TotalScore(results[..|results| - 1]) + results[|results| - 1].score
  }

  /** `results.reduce((acc, r) => acc + r.totalQuestions, 0)`. */
  function TotalQuestions(results: seq<QuizResult>): (r: int)
    ensures (forall k :: 0 <= k < |results| ==> results[k].totalQuestions >= 0) ==> r >= 0
  {
    if results == [] then 0 else TotalQuestions(results[..|results| - 1]) + results[|results| - 1].totalQuestions
  }

  /** The sums over a concatenation are the sums of the parts. */
  lemma {:induction false} TotalsAppend(a: seq<QuizResult>, b: seq<QuizResult>)
    ensures TotalScore(a + b) == TotalScore(a) + TotalScore(b)
    ensures TotalQuestions(a + b) == TotalQuestions(a) + TotalQuestions(b)
    decreases |b|
  {
    if b == [] {
      assert a + b == a;
    } else {
      var b' := b[..|b| - 1];
      assert (a + b)[..|a + b| - 1] == a + b';
      TotalsAppend(a, b');
    }
  }

  /** A result a quiz session can report: its score is between 0 and its
      number of questions. */
  predicate WellFormed(r: QuizResult) {
    0 <= r.score <= r.totalQuestions
  }

  /** Over well-formed results the total score is between 0 and the total
      number of questions. */
  lemma {:induction false} TotalsBounded(results: seq<QuizResult>)
    requires forall k :: 0 <= k < |results| ==> WellFormed(results[k])
    ensures 0 <= TotalScore(results) <= TotalQuestions(results)
  {
    if results != [] {
      TotalsBounded(results[..|results| - 1]);
    }
  }

  predicate IsPerfect(r: QuizResult) {
    r.score == r.totalQuestions
  }

  /** When every attempt is perfect, the total score is the total number of
      questions. */
  lemma {:induction false} TotalsPerfect(results: seq<QuizResult>)
    requires forall k :: 0 <= k < |results| ==> IsPerfect(results[k])
    ensures TotalScore(results) == TotalQuestions(results)
  {
    if results != [] {
      TotalsPerfect(results[..|results| - 1]);
    }
  }

  /** `results.filter(r => r.score === r.totalQuestions).length`. */
  function PerfectCount(results: seq<QuizResult>): (n: nat)
    ensures n <= |results|
    ensures n == |results| <==> forall k :: 0 <= k < |results| ==> IsPerfect(results[k])
  {
    if results == [] then 0
    else PerfectCount(results[..|results| - 1]) + (if IsPerfect(results[|results| - 1]) then 1 else 0)
  }

  /** `Math.round((totalScore / totalQuestions) * 100)`, or 0 when there are
      no questions, computed exactly: the percentage rounded half up. */
  function Accuracy(totalScore: int, totalQuestions: int): (p: int)
    ensures totalQuestions > 0 ==>
              2 * totalQuestions * p <= 200 * totalScore + totalQuestions < 2 * totalQuestions * (p + 1)
  {
    if totalQuestions > 0 then (200 * totalScore + totalQuestions) / (2 * totalQuestions) else 0
  }

  /** Multiplying by a non-negative factor keeps the order. */
  lemma {:induction false} MulMonotone(a: nat, b: int, c: int)
    requires b <= c
    ensures a * b <= a * c
  {
    if a > 0 {
      MulMonotone(a - 1, b, c);
      assert a * b == (a - 1) * b + b;
      assert a * c == (a - 1) * c + c;
    }
  }

  /** A score between 0 and the number of questions gives a percentage
      between 0 and 100. */
  lemma AccuracyBounds(totalScore: int, totalQuestions: int)
    requires 0 <= totalScore <= totalQuestions
    ensures 0 <= Accuracy(totalScore, totalQuestions) <= 100
  {
    if totalQuestions > 0 {
      var m := 2 * totalQuestions;
      var p := Accuracy(totalScore, totalQuestions);
      assert m * (p + 1) == m * p + m;
      if p < 0 {
        MulMonotone(m, p + 1, 0);
      } else if p > 100 {
        MulMonotone(m, 101, p);
      }
    }
  }

  /** Every question right is exactly 100. */
  lemma AccuracyFull(total: int)
    requires total > 0
    ensures Accuracy(total, total) == 100
  {
    var m := 2 * total;
    var p := Accuracy(total, total);
    assert m * (p + 1) == m * p + m;
    if p > 100 {
      MulMonotone(m, 101, p);
    } else if p < 100 {
      MulMonotone(m, p + 1, 100);
    }
  }

  /** `r.quizTitle.substring(0, 15)` followed by "..." when the title is longer
      than 15 characters. */
  function TruncateTitle(title: string): (name: string)
    ensures |title| <= 15 ==> name == title
    ensures |title| > 15 ==> |name| == 18 && name[..15] == title[..15] && name[15..] == "..."
  {
    if |title| > 15 then title[..15] + "..." else title
  }

  /** A title of 18 characters ending in "..." is its own label, so equal
      label and title do not mean the title was short. */
  lemma TruncateKeepsDots(title: string)
    requires |title| == 18 && title[15..] == "..."
    ensures TruncateTitle(title) == title
  {
    assert title == title[..15] + title[15..];
  }

  /** One bar of the chart; the per-attempt percentage is not modelled. */
  datatype ChartEntry = ChartEntry(name: string, fullTitle: string)

  function Entry(r: QuizResult): ChartEntry {
    ChartEntry(TruncateTitle(r.quizTitle), r.quizTitle)
  }

  /** What the `useMemo` returns. */
  datatype Stats = Stats(totalTaken: nat, overallAccuracy: int, perfect: nat, chartData: seq<ChartEntry>)

  function ComputeStats(results: seq<QuizResult>): (s: Stats)
    ensures s.totalTaken == |results|
    ensures s.perfect <= s.totalTaken
    ensures TotalQuestions(results) <= 0 ==> s.overallAccuracy == 0
    ensures |s.chartData| == |results|
  {
    Stats(|results|,
          Accuracy(TotalScore(results), TotalQuestions(results)),
          PerfectCount(results),
          seq(|results|, k requires 0 <= k < |results| => Entry(results[k])))
  }

  /** The chart has one bar per result, in order, titled by that result. */
  lemma ChartInOrder(results: seq<QuizResult>)
    ensures forall k :: 0 <= k < |results| ==>
              ComputeStats(results).chartData[k].fullTitle == results[k].quizTitle
              && ComputeStats(results).chartData[k].name == TruncateTitle(results[k].quizTitle)
  {
  }

  /** Over well-formed results the accuracy is a percentage. */
  lemma AccuracyIsPercentage(results: seq<QuizResult>)
    requires forall k :: 0 <= k < |results| ==> WellFormed(results[k])
    ensures 0 <= ComputeStats(results).overallAccuracy <= 100
  {
    TotalsBounded(results);
    AccuracyBounds(TotalScore(results), TotalQuestions(results));
  }

  /** All attempts perfect, with at least one question, is 100% accuracy. */
  lemma AllPerfectAccuracy(results: seq<QuizResult>)
    requires forall k :: 0 <= k < |results| ==> IsPerfect(results[k])
    requires TotalQuestions(results) > 0
    ensures ComputeStats(results).overallAccuracy == 100
    ensures ComputeStats(results).perfect == ComputeStats(results).totalTaken
  {
    TotalsPerfect(results);
    AccuracyFull(TotalQuestions(results));
  }
}
