/**
 * The plain-text report of utils.py (`generate_result_txt`). The score is a
 * parameter here; the generation time and the rounded percentage are given
 * as text.
 */
module ResultTxt {
  import opened Wrappers
  import opened Scoring
  import opened Review

  const PerfectScore := "PERFECT SCORE! No errors found."

  /** The closing line is not a separator line, so a report that ends with it
      has no review entries. */
  lemma ClosingIsNotSeparator()
    ensures PerfectScore != Separator(Txt)
  {
    assert PerfectScore[0] != Separator(Txt)[0];
  }

  /** The seven lines before the review: title, date, score, rule, blank
      line, the review heading and another blank line. */
  function TxtHeader(score: nat, total: nat, timestamp: string, percent: string): (h: seq<string>)
    ensures |h| == 7
  {
    [ "--- FAST EXAM RESULT CARD ---",
      "Date: " + timestamp,
      "Final Score: " + NatToString(score) + " / " + NatToString(total) + " (" + percent + "%)",
      "-------------------------------------------",
      "",
      "REVIEW OF INCORRECT ANSWERS:",
      "" ]
  }

  /** The report's lines: header, review, and the perfect-score line when the
      review is empty. */
  function TxtLines(score: nat, total: nat, qs: seq<Question>, ans: Answers, timestamp: string, percent: string): seq<string> {
    Framed(TxtHeader(score, total, timestamp, percent), Entries(Txt, qs, ans, |qs|), PerfectScore)
  }

  /** `generate_result_txt(score, total, df, user_answers)`: the score line
      divides by `total`, so a total of zero raises ZeroDivisionError. */
  method GenerateResultTxt(score: nat, total: nat, qs: seq<Question>, userAnswers: Answers, timestamp: string, percent: string)
    returns (r: Result<seq<string>, Fault>)
    ensures total == 0 ==> r == Failure(ZeroDivision)
    ensures total != 0 ==> r == Success(TxtLines(score, total, qs, userAnswers, timestamp, percent))
  {
    if total == 0 {
      return Failure(ZeroDivision);
    }
    var report := TxtHeader(score, total, timestamp, percent);
    var incorrectFound;
    report, incorrectFound := AppendReview(Txt, report, qs, userAnswers);
    if !incorrectFound {
      report := report + [PerfectScore];
    } else {
      // no closing line: `Framed` appends the empty sequence here
      assert report == report + [];
    }
    return Success(report);
  }

  /** The report lists, from line 7 on and in question order, exactly the
      questions whose answer text differs from the correct answer, each as
      the four lines of `EntryLines` headed `Q{i+1}`; the perfect-score
      line closes it exactly when none is listed. */
  lemma TxtReport(score: nat, total: nat, qs: seq<Question>, ans: Answers, timestamp: string, percent: string)
    ensures var lines := TxtLines(score, total, qs, ans, timestamp, percent);
      var w := WrongIndices(qs, ans, |qs|);
      && (forall i: nat :: i in w <==> i < |qs| && !IsCorrect(qs, ans, i))
      && Increasing(w)
      && |lines| == 7 + 4 * |w| + (if w == [] then 1 else 0)
      && (forall k :: 0 <= k < |w| ==>
            lines[7 + 4 * k .. 11 + 4 * k] == EntryLines(Txt, qs[w[k]], w[k], Lookup(ans, w[k])))
      && (lines[|lines| - 1] == PerfectScore <==> w == [])
  {
    WrongIndicesExact(qs, ans, |qs|);
    TxtLayout(score, total, qs, ans, timestamp, percent);
  }

  /** The report's entries sit at lines 7 + 4k, and the perfect-score line
      is its last line exactly when no question is wrong. */
  lemma TxtLayout(score: nat, total: nat, qs: seq<Question>, ans: Answers, timestamp: string, percent: string)
    ensures var lines := TxtLines(score, total, qs, ans, timestamp, percent);
      var w := WrongIndices(qs, ans, |qs|);
      && |lines| == 7 + 4 * |w| + (if w == [] then 1 else 0)
      && (forall k :: 0 <= k < |w| ==>
            lines[7 + 4 * k .. 11 + 4 * k] == EntryLines(Txt, qs[w[k]], w[k], Lookup(ans, w[k])))
      && (lines[|lines| - 1] == PerfectScore <==> w == [])
  {
    ClosingIsNotSeparator();
    FramedReview(Txt, TxtHeader(score, total, timestamp, percent), PerfectScore, qs, ans);
  }


  /** The review does not depend on the `score` argument: reports written
      with different scores agree from the review on. When the score is the
      one the result screen computes, the review has `total - score`
      entries. */
  lemma TxtReviewIgnoresScore(s1: nat, s2: nat, total: nat, qs: seq<Question>, ans: Answers, timestamp: string, p1: string, p2: string)
    ensures var l1 := TxtLines(s1, total, qs, ans, timestamp, p1);
      var l2 := TxtLines(s2, total, qs, ans, timestamp, p2);
      |l1| == |l2| && l1[7..] == l2[7..]
    ensures s1 == CorrectCount(qs, ans, |qs|) ==>
      |Entries(Txt, qs, ans, |qs|)| == 4 * (|qs| - s1)
  {
    EntriesListWrongIndices(Txt, qs, ans, |qs|);
    ScoreAndWrongPartition(qs, ans, |qs|);
    var h1 := TxtHeader(s1, total, timestamp, p1);
    var h2 := TxtHeader(s2, total, timestamp, p2);
    assert |h1| == |h2| == 7;
    var e := Entries(Txt, qs, ans, |qs|);
    FramedShape(h1, e, PerfectScore);
    FramedShape(h2, e, PerfectScore);
  }
}
