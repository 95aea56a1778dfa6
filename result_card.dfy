/**
 * The downloadable result card of the result screen (app.py
 * `create_result_card`). The generation time and the percentage with one
 * decimal are given as text.
 */
module ResultCard {
  import opened Wrappers
  import opened Scoring
  import opened Review

  const Congratulations := "Congratulations! You got everything correct."

  /** The closing line is not a separator line, so a report that ends with it
      has no review entries. */
  lemma ClosingIsNotSeparator()
    ensures Congratulations != Separator(Card)
  {
    assert Congratulations[0] != Separator(Card)[0];
  }

  /** The seven lines before the review: title, date, score, status, rule,
      blank line and the review heading. */
  function CardHeader(score: nat, total: nat, timestamp: string, percent: string): (h: seq<string>)
    ensures |h| == 7
  {
    [ "--- SCIENCE EXAM RESULT CARD ---",
      "Date: " + timestamp,
      "Final Score: " + NatToString(score) + "/" + NatToString(total) + " (" + percent + "%)",
      "Status: " + (if PassMark(score, total) then "PASSED" else "FAILED"),
      "===================================",
      "",
      "INCORRECT QUESTIONS REVIEW:" ]
  }

  /** The card's lines: header, review, and the congratulation line when the
      review is empty. */
  function CardLines(score: nat, total: nat, qs: seq<Question>, ans: Answers, timestamp: string, percent: string): seq<string> {
    Framed(CardHeader(score, total, timestamp, percent), Entries(Card, qs, ans, |qs|), Congratulations)
  }

  /** `create_result_card(score, total, user_ans, df)`: the percentage is
      computed first, so a total of zero raises ZeroDivisionError. */
  method CreateResultCard(score: nat, total: nat, userAns: Answers, qs: seq<Question>, timestamp: string, percent: string)
    returns (r: Result<seq<string>, Fault>)
    ensures total == 0 ==> r == Failure(ZeroDivision)
    ensures total != 0 ==> r == Success(CardLines(score, total, qs, userAns, timestamp, percent))
  {
    if total == 0 {
      return Failure(ZeroDivision);
    }
    var card := CardHeader(score, total, timestamp, percent);
    var wrongFound;
    card, wrongFound := AppendReview(Card, card, qs, userAns);
    if !wrongFound {
      card := card + [Congratulations];
    } else {
      // no closing line: `Framed` appends the empty sequence here
      assert card == card + [];
    }
    return Success(card);
  }

  /** What the result screen's card says, given the score it computed:
      question i is listed (as the entry at line 7 + 4k) exactly when it was
      not counted, there are `total - score` entries, and the congratulation
      line closes the card exactly when nothing is listed. */
  lemma CardReview(qs: seq<Question>, ans: Answers, timestamp: string, percent: string)
    ensures var score := CorrectCount(qs, ans, |qs|);
      var lines := CardLines(score, |qs|, qs, ans, timestamp, percent);
      var w := WrongIndices(qs, ans, |qs|);
      && |w| == |qs| - score
      && (forall i: nat :: i in w <==> i < |qs| && !IsCorrect(qs, ans, i))
      && Increasing(w)
      && |lines| == 7 + 4 * |w| + (if w == [] then 1 else 0)
      && (forall k :: 0 <= k < |w| ==>
            lines[7 + 4 * k .. 11 + 4 * k] == EntryLines(Card, qs[w[k]], w[k], Lookup(ans, w[k])))
      && (lines[|lines| - 1] == Congratulations <==> score == |qs|)
  {
    ScoreAndWrongPartition(qs, ans, |qs|);
    WrongIndicesExact(qs, ans, |qs|);
    CardLayout(CorrectCount(qs, ans, |qs|), qs, ans, timestamp, percent);
  }

  /** Whatever the score argument, the card's entries sit at lines 7 + 4k,
      and the congratulation is its last line exactly when no question is
      wrong. */
  lemma CardLayout(score: nat, qs: seq<Question>, ans: Answers, timestamp: string, percent: string)
    ensures var lines := CardLines(score, |qs|, qs, ans, timestamp, percent);
      var w := WrongIndices(qs, ans, |qs|);
      && |lines| == 7 + 4 * |w| + (if w == [] then 1 else 0)
      && (forall k :: 0 <= k < |w| ==>
            lines[7 + 4 * k .. 11 + 4 * k] == EntryLines(Card, qs[w[k]], w[k], Lookup(ans, w[k])))
      && (lines[|lines| - 1] == Congratulations <==> w == [])
  {
    ClosingIsNotSeparator();
    FramedReview(Card, CardHeader(score, |qs|, timestamp, percent), Congratulations, qs, ans);
  }


  /** The card's status line says PASSED exactly when the percentage is at
      least 40. */
  lemma CardStatus(score: nat, qs: seq<Question>, ans: Answers, timestamp: string, percent: string)
    requires |qs| >= 1
    ensures var lines := CardLines(score, |qs|, qs, ans, timestamp, percent);
      |lines| > 3 && (lines[3] == "Status: PASSED" <==> Passed(score, |qs|))
  {
    var h := CardHeader(score, |qs|, timestamp, percent);
    var e := Entries(Card, qs, ans, |qs|);
    FramedShape(h, e, Congratulations);
    var lines := Framed(h, e, Congratulations);
    assert lines[3] == lines[..7][3] == h[3];
    assert ("Status: " + "FAILED")[8] != ("Status: " + "PASSED")[8];
    PassedIffIntegerThreshold(score, |qs|);
  }
}
