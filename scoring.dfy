/**
 * The scoring rule of the exam (app.py, the loop on the result screen):
 * a question counts when the text of the stored answer equals the text of
 * the correct answer. A question that has no stored answer is looked up as
 * Python's `None`, whose text is "None".
 */
module Scoring {
  import opened Wrappers

  /** One row of the question bank: its text, the four options A-D and the
      text of the correct answer (`str(row['Correct Answer'])`). */
  datatype Question = Question(text: string, options: seq<string>, correct: string)

  /** The exceptions the core can raise. */
  datatype Fault = ZeroDivision

  /** The answers of one attempt, keyed by question position. The exam form
      stores `None` for a radio group left unselected; after an automatic
      submit there is no entry at all. */
  type Answers = map<nat, Option<string>>

  /** Python's `str()` of an answer: the option text, or "None" when absent. */
  function Text(a: Option<string>): string {
    match a
    case Some(s) => s
    case None => "None"
  }

  /** `answers.get(i)`: a missing key reads as `None`. */
  function Lookup(ans: Answers, i: nat): Option<string> {
    if i in ans then ans[i] else None
  }

  /** Question `i` is scored: `str(ans.get(i)) == str(correct)`. */
  predicate IsCorrect(qs: seq<Question>, ans: Answers, i: nat)
    requires i < |qs|
  {
    Text(Lookup(ans, i)) == qs[i].correct
  }

  /** How many of the first `n` questions are scored. */
  function CorrectCount(qs: seq<Question>, ans: Answers, n: nat): (c: nat)
    requires n <= |qs|
    ensures c <= n
  {
    if n == 0 then 0
    else CorrectCount(qs, ans, n - 1) + (if IsCorrect(qs, ans, n - 1) then 1 else 0)
  }

  /** The positions among the first `n` questions that are not scored,
      in question order. */
  function WrongIndices(qs: seq<Question>, ans: Answers, n: nat): (w: seq<nat>)
    requires n <= |qs|
    ensures forall k :: 0 <= k < |w| ==> w[k] < n
  {
    if n == 0 then []
    else WrongIndices(qs, ans, n - 1) + (if IsCorrect(qs, ans, n - 1) then [] else [n - 1])
  }

  /** The set of scored positions among the first `n` questions. */
  function CorrectSet(qs: seq<Question>, ans: Answers, n: nat): set<nat>
    requires n <= |qs|
  {
    set i: nat | i < n && IsCorrect(qs, ans, i)
  }

  /** Extending the prefix by one question adds that question to the set
      exactly when it is answered correctly. */
  lemma CorrectSetStep(qs: seq<Question>, ans: Answers, n: nat)
    requires 0 < n <= |qs|
    ensures CorrectSet(qs, ans, n) == CorrectSet(qs, ans, n - 1) + (if IsCorrect(qs, ans, n - 1) then {n - 1} else {})
  {
  }

  /** The count is the size of the set of scored positions. */
  lemma {:induction false} CorrectCountIsCardinality(qs: seq<Question>, ans: Answers, n: nat)
    requires n <= |qs|
    ensures CorrectCount(qs, ans, n) == |CorrectSet(qs, ans, n)|
  {
    if n > 0 {
      CorrectCountIsCardinality(qs, ans, n - 1);
      CorrectSetStep(qs, ans, n);
      var prev := CorrectSet(qs, ans, n - 1);
      if IsCorrect(qs, ans, n - 1) {
        assert n - 1 !in prev;
        assert |prev + {n - 1}| == |prev| + 1;
      }
    }
  }

  /** Each element of `s` is smaller than the ones after it. */
  predicate Increasing(s: seq<nat>) {
    forall j, k :: 0 <= j < k < |s| ==> s[j] < s[k]
  }

  /** The wrong positions are exactly the unscored ones below `n`, each once,
      in increasing order. */
  lemma {:induction false} WrongIndicesExact(qs: seq<Question>, ans: Answers, n: nat)
    requires n <= |qs|
    ensures forall i: nat :: i in WrongIndices(qs, ans, n) <==> i < n && !IsCorrect(qs, ans, i)
    ensures Increasing(WrongIndices(qs, ans, n))
  {
    WrongIndicesMembers(qs, ans, n);
    WrongIndicesIncreasing(qs, ans, n);
  }

  lemma {:induction false} WrongIndicesMembers(qs: seq<Question>, ans: Answers, n: nat)
    requires n <= |qs|
    ensures forall i: nat :: i in WrongIndices(qs, ans, n) <==> i < n && !IsCorrect(qs, ans, i)
  {
    if n > 0 {
      WrongIndicesMembers(qs, ans, n - 1);
    }
  }

  lemma {:induction false} WrongIndicesIncreasing(qs: seq<Question>, ans: Answers, n: nat)
    requires n <= |qs|
    ensures Increasing(WrongIndices(qs, ans, n))
  {
    if n > 0 && !IsCorrect(qs, ans, n - 1) {
      WrongIndicesIncreasing(qs, ans, n - 1);
      var w := WrongIndices(qs, ans, n - 1);
      var w' := WrongIndices(qs, ans, n);
      assert w' == w + [n - 1];
      forall j, k | 0 <= j < k < |w'| ensures w'[j] < w'[k] {
        if k < |w| {
          assert w'[j] == w[j] && w'[k] == w[k];
        } else {
          assert w'[j] == w[j] && w[j] < n - 1;
        }
      }
    } else if n > 0 {
      WrongIndicesIncreasing(qs, ans, n - 1);
    }
  }


  /** Every question is either scored or listed as wrong:
      score + number of wrong entries == number of questions. */
  lemma {:induction false} ScoreAndWrongPartition(qs: seq<Question>, ans: Answers, n: nat)
    requires n <= |qs|
    ensures CorrectCount(qs, ans, n) + |WrongIndices(qs, ans, n)| == n
  {
    if n > 0 {
      ScoreAndWrongPartition(qs, ans, n - 1);
    }
  }

  /** After an automatic submit no answer is stored, so a question is scored
      only when its correct answer is literally the text "None". */
  lemma {:induction false} UnansweredScore(qs: seq<Question>, n: nat)
    requires n <= |qs|
    ensures (forall i :: 0 <= i < n ==> qs[i].correct != "None") ==> CorrectCount(qs, map[], n) == 0
    ensures (forall i :: 0 <= i < n ==> qs[i].correct == "None") ==> CorrectCount(qs, map[], n) == n
  {
    if n > 0 {
      UnansweredScore(qs, n - 1);
    }
  }

  /** Only the answers at the positions of the questions matter: two answer
      maps that agree there give the same score. */
  lemma {:induction false} ScoreDependsOnlyOnQuestionPositions(qs: seq<Question>, a1: Answers, a2: Answers, n: nat)
    requires n <= |qs|
    requires forall i: nat :: i < n ==> Lookup(a1, i) == Lookup(a2, i)
    ensures CorrectCount(qs, a1, n) == CorrectCount(qs, a2, n)
    ensures WrongIndices(qs, a1, n) == WrongIndices(qs, a2, n)
  {
    if n > 0 {
      ScoreDependsOnlyOnQuestionPositions(qs, a1, a2, n - 1);
    }
  }

  /** The scoring loop of the result screen. */
  method Score(qs: seq<Question>, ans: Answers) returns (score: nat)
    ensures score == CorrectCount(qs, ans, |qs|)
    ensures score == |CorrectSet(qs, ans, |qs|)|
    ensures score <= |qs|
  {
    score := 0;
    for i := 0 to |qs|
      invariant score == CorrectCount(qs, ans, i)
    {
      if Text(Lookup(ans, i)) == qs[i].correct {
        score := score + 1;
      }
    }
    CorrectCountIsCardinality(qs, ans, |qs|);
  }

  /** The percentage `score / total * 100`, in exact arithmetic. */
  function Percent(score: nat, total: nat): real
    requires total >= 1
  {
    (score as real / total as real) * 100.0
  }

  /** A score that does not exceed the total is a percentage in [0, 100]. */
  lemma PercentBounds(score: nat, total: nat)
    requires total >= 1 && score <= total
    ensures 0.0 <= Percent(score, total) <= 100.0
  {
    var q := score as real / total as real;
    assert q * (total as real) == score as real;
  }

  /** The result card's status: PASSED when the percentage is at least 40. */
  predicate Passed(score: nat, total: nat)
    requires total >= 1
  {
    Percent(score, total) >= 40.0
  }

  /** The pass threshold in integers; the status line is computed with it. */
  predicate PassMark(score: nat, total: nat) {
    score * 100 >= 40 * total
  }

  /** The integer threshold agrees with the percentage: passed iff
      score * 100 >= 40 * total. */
  lemma PassedIffIntegerThreshold(score: nat, total: nat)
    requires total >= 1
    ensures Passed(score, total) <==> PassMark(score, total)
  {
    var t := total as real;
    var p := Percent(score, total);
    assert p * t == (score * 100) as real by {
      var q := score as real / t;
      assert q * t == score as real;
      assert p * t == (q * t) * 100.0;
    }
    if p >= 40.0 {
      MultiplyKeepsOrder(40.0, p, t);
    } else {
      MultiplyKeepsOrder(p, 40.0, t);
    }
  }

  /** Multiplying by a positive number keeps the order. */
  lemma MultiplyKeepsOrder(x: real, y: real, t: real)
    requires t > 0.0 && x <= y
    ensures x * t <= y * t && (x < y ==> x * t < y * t)
  {
  }
}
