/** The score of a finished quiz and the message shown for it (src/pages/ResultsPage.tsx). */
module Results {
  import opened Basics
  import opened Normalize
  import opened Progress

  /** A question counts as correct when its recorded answer is its correct index; an unanswered
      question has no recorded answer and so counts as incorrect. */
  predicate AnsweredCorrectly(answers: map<string, int>, q: Question)
  {
    q.id in answers && answers[q.id] == q.dogruCevapIndex
  }

  /** The number of correctly answered questions. */
  function CountCorrect(questions: seq<Question>, answers: map<string, int>): (c: nat)
    ensures c <= |questions|
  {
    if questions == [] then 0
    else CountCorrect(questions[..|questions| - 1], answers) + (if AnsweredCorrectly(answers, questions[|questions| - 1]) then 1 else 0)
  }

  function IsAnsweredCorrectly(answers: map<string, int>): Question -> bool
  {
    q => AnsweredCorrectly(answers, q)
  }

  /** The count is the number of questions the correctness filter keeps. */
  lemma {:induction false} CountCorrectIsFilterLength(questions: seq<Question>, answers: map<string, int>)
    ensures CountCorrect(questions, answers) == |Filter(questions, IsAnsweredCorrectly(answers))|
  {
    if questions != [] {
      var init, last := questions[..|questions| - 1], questions[|questions| - 1];
      assert questions == init + [last];
      CountCorrectIsFilterLength(init, answers);
      FilterAppend(init, [last], IsAnsweredCorrectly(answers));
      assert Filter([last], IsAnsweredCorrectly(answers)) == (if AnsweredCorrectly(answers, last) then [last] else []) by {
        assert [last][1..] == [];
      }
    }
  }

  /** With no answers recorded, nothing is correct. */
  lemma {:induction false} NoAnswersNoneCorrect(questions: seq<Question>)
    ensures CountCorrect(questions, map[]) == 0
  {
    if questions != [] {
      NoAnswersNoneCorrect(questions[..|questions| - 1]);
    }
  }

  /** Answering every question correctly counts all of them. */
  lemma {:induction false} AllCorrectCountsAll(questions: seq<Question>, answers: map<string, int>)
    requires forall k :: 0 <= k < |questions| ==> AnsweredCorrectly(answers, questions[k])
    ensures CountCorrect(questions, answers) == |questions|
  {
    if questions != [] {
      AllCorrectCountsAll(questions[..|questions| - 1], answers);
    }
  }

  /** `Math.round(correct / total * 100)`, in exact arithmetic with halves rounded up; 0 for an
      empty quiz. */
  function RoundedPercent(correct: nat, total: nat): (p: nat)
    requires correct <= total
    ensures total == 0 ==> p == 0
    ensures p <= 100
    ensures total > 0 ==> 2 * p * total - total <= 200 * correct < 2 * p * total + total
  {
    if total == 0 then 0
    else
      var p := (200 * correct + total) / (2 * total);
      PercentBounds(correct, total, p);
      p
  }

  lemma PercentBounds(correct: nat, total: nat, p: int)
    requires correct <= total && total > 0
    requires p == (200 * correct + total) / (2 * total)
    ensures 0 <= p <= 100
    ensures 2 * p * total - total <= 200 * correct < 2 * p * total + total
  {
    var n, d := 200 * correct + total, 2 * total;
    assert p * d <= n < p * d + d;
    assert n < 101 * d;
    CancelFactor(p, 101, d);
    CancelFactorEq(0, p, d);
  }

  /** Cancelling a positive factor on both sides of a strict inequality. */
  lemma CancelFactor(a: int, b: int, d: int)
    requires d > 0 && a * d < b * d
    ensures a < b
  {
  }

  /** Cancelling a positive factor on both sides of a non-strict inequality. */
  lemma CancelFactorEq(a: int, b: int, d: int)
    requires d > 0 && a * d <= b * d
    ensures a <= b
  {
  }

  /** Two of four correct is 50. */
  lemma HalfIsFifty()
    ensures RoundedPercent(2, 4) == 50
  {
  }

  /** All correct is 100. */
  lemma AllIsHundred(n: nat)
    requires n > 0
    ensures RoundedPercent(n, n) == 100
  {
    var p := RoundedPercent(n, n);
    assert (2 * p - 1) * n <= 200 * n;
    assert 200 * n < (2 * p + 1) * n;
    CancelFactorEq(2 * p - 1, 200, n);
    CancelFactor(200, 2 * p + 1, n);
  }

  /** More correct answers never give a lower score. */
  lemma PercentMonotone(a: nat, b: nat, total: nat)
    requires a <= b <= total
    ensures RoundedPercent(a, total) <= RoundedPercent(b, total)
  {
    if total > 0 {
      var pa, pb := RoundedPercent(a, total), RoundedPercent(b, total);
      assert 2 * pa * total - total <= 200 * a <= 200 * b < 2 * pb * total + total;
      assert (pa - pb) * (2 * total) < 1 * (2 * total);
      CancelFactor(pa - pb, 1, 2 * total);
    }
  }

  datatype ScoreResult = ScoreResult(score: nat, total: nat, correctAnswers: nat, incorrectAnswers: nat)

  /** The score computation: a pass over the questions counting the correct ones. */
  method ComputeResults(quiz: Option<Quiz>) returns (r: ScoreResult)
    ensures quiz.None? ==> r == ScoreResult(0, 0, 0, 0)
    ensures quiz.Some? ==>
              && r.total == |quiz.value.questions|
              && r.correctAnswers == CountCorrect(quiz.value.questions, quiz.value.userAnswers)
              && r.correctAnswers + r.incorrectAnswers == r.total
              && r.score == RoundedPercent(r.correctAnswers, r.total)
  {
    if quiz.None? {
      return ScoreResult(0, 0, 0, 0);
    }
    var questions := quiz.value.questions;
    var answers := quiz.value.userAnswers;
    var totalQuestions := |questions|;
    var correct := 0;
    var i := 0;
    while i < |questions|
      invariant 0 <= i <= |questions|
      invariant correct == CountCorrect(questions[..i], answers)
    {
      assert questions[..i + 1][..i] == questions[..i];
      if questions[i].id in answers && answers[questions[i].id] == questions[i].dogruCevapIndex {
        correct := correct + 1;
      }
      i := i + 1;
    }
    assert questions[..i] == questions;
    var scorePercentage := if totalQuestions > 0 then RoundedPercent(correct, totalQuestions) else 0;
    r := ScoreResult(scorePercentage, totalQuestions, correct, totalQuestions - correct);
  }

  /** `getResultMessage`: the first band the score reaches. */
  function ResultMessage(score: int): (m: string)
    ensures score >= 90 <==> m == "Mükemmel performans"
    ensures 80 <= score < 90 <==> m == "Güçlü bir sonuç"
    ensures 70 <= score < 80 <==> m == "Tutarlı ilerleme"
    ensures 60 <= score < 70 <==> m == "İstikrarlı bir tempo"
    ensures score < 60 <==> m == "Ek pratik önerilir"
  {
    if score >= 90 then "Mükemmel performans"
    else if score >= 80 then "Güçlü bir sonuç"
    else if score >= 70 then "Tutarlı ilerleme"
    else if score >= 60 then "İstikrarlı bir tempo"
    else "Ek pratik önerilir"
  }

  /** A perfect quiz earns the top message. */
  lemma PerfectQuizTopMessage(questions: seq<Question>, answers: map<string, int>)
    requires questions != []
    requires forall k :: 0 <= k < |questions| ==> AnsweredCorrectly(answers, questions[k])
    ensures ResultMessage(RoundedPercent(CountCorrect(questions, answers), |questions|)) == "Mükemmel performans"
  {
    AllCorrectCountsAll(questions, answers);
    AllIsHundred(|questions|);
  }
}
