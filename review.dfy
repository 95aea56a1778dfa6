/**
 * The "incorrect questions" review that both text reports contain
 * (app.py `create_result_card` and utils.py `generate_result_txt`): for every
 * question, in question order, whose answer text differs from the correct
 * answer, four lines naming the question, the student's answer, the correct
 * answer and a separator. A report is modelled as the sequence of pieces
 * the code ends with a line break.
 */
module Review {
  import opened Wrappers
  import opened Scoring

  /** Decimal text of a natural number, as an f-string prints an `int`. */
  function NatToString(n: nat): string
    decreases n
  {
    if n < 10 then ["0123456789"[n]]
    else NatToString(n / 10) + ["0123456789"[n % 10]]
  }

  /** The two reports differ in how an entry shows the answer and in the
      width of the separator line. */
  datatype Layout = Card | Txt

  /** The answer as an entry shows it. The card prints `u_ans` itself, so a
      missing answer shows as "None"; the text file prints
      `ans if ans else 'None'`, so the empty answer shows as "None" too. */
  function AnswerShown(layout: Layout, a: Option<string>): string {
    match layout
    case Card => Text(a)
    case Txt => if a.None? || a.value == "" then "None" else a.value
  }

  /** `'-' * 20` on the card, `'-' * 40` in the text file. */
  function Separator(layout: Layout): string {
    match layout
    case Card => "--------------------"
    case Txt => "----------------------------------------"
  }

  /** The four lines listing question `i` (shown as `Q{i+1}`). */
  function EntryLines(layout: Layout, q: Question, i: nat, a: Option<string>): seq<string> {
    [ "Q" + NatToString(i + 1) + ": " + q.text,
      "   - Your Answer: " + AnswerShown(layout, a),
      "   - Correct Answer: " + q.correct,
      Separator(layout) ]
  }

  /** The entry blocks the report loop emits for the first `n` questions:
      one four-line block per question that is not scored. */
  function EntryBlocks(layout: Layout, qs: seq<Question>, ans: Answers, n: nat): seq<seq<string>>
    requires n <= |qs|
  {
    if n == 0 then []
    else
      EntryBlocks(layout, qs, ans, n - 1)
      + (if IsCorrect(qs, ans, n - 1) then [] else [EntryLines(layout, qs[n - 1], n - 1, Lookup(ans, n - 1))])
  }

  /** The blocks' lines, one block after another. */
  function Flatten(blocks: seq<seq<string>>): seq<string> {
    if blocks == [] then [] else Flatten(blocks[..|blocks| - 1]) + blocks[|blocks| - 1]
  }

  /** The review lines the report loop emits for the first `n` questions. */
  function Entries(layout: Layout, qs: seq<Question>, ans: Answers, n: nat): seq<string>
    requires n <= |qs|
  {
    Flatten(EntryBlocks(layout, qs, ans, n))
  }

  /** Flattening one more block appends its lines. */
  lemma FlattenAppend(blocks: seq<seq<string>>, b: seq<string>)
    ensures Flatten(blocks + [b]) == Flatten(blocks) + b
  {
    assert (blocks + [b])[..|blocks|] == blocks;
  }

  /** One turn of a report loop: question `i` adds its entry exactly when
      it is not scored. */
  lemma EntriesStep(layout: Layout, qs: seq<Question>, ans: Answers, i: nat)
    requires i < |qs|
    ensures Entries(layout, qs, ans, i + 1)
      == Entries(layout, qs, ans, i) + (if IsCorrect(qs, ans, i) then [] else EntryLines(layout, qs[i], i, Lookup(ans, i)))
  {
    var bs := EntryBlocks(layout, qs, ans, i);
    if IsCorrect(qs, ans, i) {
      assert EntryBlocks(layout, qs, ans, i + 1) == bs + [] == bs;
      assert Flatten(bs) + [] == Flatten(bs);
    } else {
      FlattenAppend(bs, EntryLines(layout, qs[i], i, Lookup(ans, i)));
    }
  }

  /** Appending lines is associative. Stated as a lemma so that the review
      loop's invariant step does not search for this fact itself. */
  lemma AppendAssoc(a: seq<string>, b: seq<string>, c: seq<string>)
    ensures (a + b) + c == a + (b + c)
  {
  }

  /** Block `k` of the loop's blocks lists the k-th wrong position. */
  lemma {:induction false} BlocksListWrongIndices(layout: Layout, qs: seq<Question>, ans: Answers, n: nat)
    requires n <= |qs|
    ensures |EntryBlocks(layout, qs, ans, n)| == |WrongIndices(qs, ans, n)|
    ensures var w := WrongIndices(qs, ans, n);
      forall k :: 0 <= k < |w| ==>
        EntryBlocks(layout, qs, ans, n)[k] == EntryLines(layout, qs[w[k]], w[k], Lookup(ans, w[k]))
  {
    BlocksCountWrongIndices(layout, qs, ans, n);
    if n > 0 {
      BlocksListWrongIndices(layout, qs, ans, n - 1);
      if !IsCorrect(qs, ans, n - 1) {
        var b := EntryBlocks(layout, qs, ans, n - 1);
        var w := WrongIndices(qs, ans, n - 1);
        var e := EntryLines(layout, qs[n - 1], n - 1, Lookup(ans, n - 1));
        assert EntryBlocks(layout, qs, ans, n) == b + [e];
        assert WrongIndices(qs, ans, n) == w + [n - 1];
      }
    }
  }

  lemma {:induction false} BlocksCountWrongIndices(layout: Layout, qs: seq<Question>, ans: Answers, n: nat)
    requires n <= |qs|
    ensures |EntryBlocks(layout, qs, ans, n)| == |WrongIndices(qs, ans, n)|
  {
    if n > 0 {
      BlocksCountWrongIndices(layout, qs, ans, n - 1);
    }
  }


  /** Flattening four-line blocks puts block `k` at lines 4k to 4k+3. */
  lemma {:induction false} FlattenSlices(blocks: seq<seq<string>>)
    requires forall k :: 0 <= k < |blocks| ==> |blocks[k]| == 4
    ensures |Flatten(blocks)| == 4 * |blocks|
    ensures forall k :: 0 <= k < |blocks| ==> Flatten(blocks)[4 * k .. 4 * k + 4] == blocks[k]
  {
    if blocks != [] {
      var front := blocks[..|blocks| - 1];
      var last := blocks[|blocks| - 1];
      FlattenSlices(front);
      forall k | 0 <= k < |blocks|
        ensures (Flatten(front) + last)[4 * k .. 4 * k + 4] == blocks[k]
      {
        if k < |front| {
          assert (Flatten(front) + last)[4 * k .. 4 * k + 4] == Flatten(front)[4 * k .. 4 * k + 4];
        } else {
          assert (Flatten(front) + last)[|Flatten(front)| .. |Flatten(front)| + 4] == last[0..4];
        }
      }
    }
  }

  /** The review is the wrong questions' entries, one after another, in
      question order: entry `k` (lines 4k to 4k+3) lists the k-th wrong
      question. */
  lemma EntriesListWrongIndices(layout: Layout, qs: seq<Question>, ans: Answers, n: nat)
    requires n <= |qs|
    ensures |Entries(layout, qs, ans, n)| == 4 * |WrongIndices(qs, ans, n)|
    ensures var w := WrongIndices(qs, ans, n);
      forall k :: 0 <= k < |w| ==>
        Entries(layout, qs, ans, n)[4 * k .. 4 * k + 4] == EntryLines(layout, qs[w[k]], w[k], Lookup(ans, w[k]))
  {
    BlocksListWrongIndices(layout, qs, ans, n);
    FlattenSlices(EntryBlocks(layout, qs, ans, n));
  }

  /** The review is empty exactly when every question is scored. */
  lemma EntriesEmptyIffAllCorrect(layout: Layout, qs: seq<Question>, ans: Answers)
    ensures Entries(layout, qs, ans, |qs|) == [] <==> CorrectCount(qs, ans, |qs|) == |qs|
  {
    EntriesListWrongIndices(layout, qs, ans, |qs|);
    ScoreAndWrongPartition(qs, ans, |qs|);
  }

  /** On both layouts the last line of a non-empty review is a separator. */
  lemma EntriesEndWithSeparator(layout: Layout, qs: seq<Question>, ans: Answers, n: nat)
    requires n <= |qs|
    requires Entries(layout, qs, ans, n) != []
    ensures var e := Entries(layout, qs, ans, n);
      e[|e| - 1] == Separator(layout)
  {
    EntriesListWrongIndices(layout, qs, ans, n);
    var w := WrongIndices(qs, ans, n);
    var e := Entries(layout, qs, ans, n);
    var k := |w| - 1;
    assert e[4 * k .. 4 * k + 4][3] == e[|e| - 1];
    assert EntryLines(layout, qs[w[k]], w[k], Lookup(ans, w[k]))[3] == Separator(layout);
  }

  /** A report: its header, the review, and a closing line that is added
      only when the review is empty (the `wrong_found` / `incorrect_found`
      flag of the loops). */
  function Framed(header: seq<string>, review: seq<string>, closing: string): seq<string> {
    header + review + (if review == [] then [closing] else [])
  }

  /** Where the review sits in a framed report, and when the closing line is
      last. */
  lemma FramedShape(header: seq<string>, review: seq<string>, closing: string)
    ensures var f := Framed(header, review, closing);
      && |f| == |header| + |review| + (if review == [] then 1 else 0)
      && f[..|header|] == header
      && f[|header| .. |header| + |review|] == review
      && (f[|f| - 1] == closing <==> review == [] || review[|review| - 1] == closing)
      && f[|header|..] == review + (if review == [] then [closing] else [])
  {
    var f := Framed(header, review, closing);
    assert f[..|header|] == header;
    assert f[|header| .. |header| + |review|] == review;
    assert f[|header|..] == review + (if review == [] then [closing] else []);
  }

  /** Any stretch of the review sits in the framed report right after the
      header. */
  lemma FramedSlice(header: seq<string>, review: seq<string>, closing: string, i: nat, j: nat)
    requires i <= j <= |review|
    ensures Framed(header, review, closing)[|header| + i .. |header| + j] == review[i..j]
  {
    var tail := review + (if review == [] then [closing] else []);
    assert Framed(header, review, closing) == header + tail;
    assert (header + tail)[|header| + i .. |header| + j] == tail[i..j];
    assert tail[i..j] == review[i..j];
  }

  /** A report whose review never ends with the closing line ends with it
      exactly when the review is empty. */
  lemma FramedLast(header: seq<string>, review: seq<string>, closing: string)
    requires review != [] ==> review[|review| - 1] != closing
    ensures var f := Framed(header, review, closing);
      |f| > 0 && (f[|f| - 1] == closing <==> review == [])
  {
  }

  /** A framed report lists the wrong questions in order right after its
      header, `4 * |w|` lines in all, and ends with its closing line exactly
      when nothing is wrong (provided the closing line is not a separator). */
  lemma {:induction false} FramedReview(layout: Layout, header: seq<string>, closing: string, qs: seq<Question>, ans: Answers)
    requires closing != Separator(layout)
    ensures var lines := Framed(header, Entries(layout, qs, ans, |qs|), closing);
      var w := WrongIndices(qs, ans, |qs|);
      && |lines| == |header| + 4 * |w| + (if w == [] then 1 else 0)
      && (forall k :: 0 <= k < |w| ==>
            lines[|header| + 4 * k .. |header| + 4 * k + 4] == EntryLines(layout, qs[w[k]], w[k], Lookup(ans, w[k])))
      && (lines[|lines| - 1] == closing <==> w == [])
  {
    FramedReviewEntries(layout, header, closing, qs, ans);
    FramedReviewClosing(layout, header, closing, qs, ans);
  }

  lemma FramedReviewEntries(layout: Layout, header: seq<string>, closing: string, qs: seq<Question>, ans: Answers)
    ensures var lines := Framed(header, Entries(layout, qs, ans, |qs|), closing);
      var w := WrongIndices(qs, ans, |qs|);
      && |lines| == |header| + 4 * |w| + (if w == [] then 1 else 0)
      && forall k :: 0 <= k < |w| ==>
        lines[|header| + 4 * k .. |header| + 4 * k + 4] == EntryLines(layout, qs[w[k]], w[k], Lookup(ans, w[k]))
  {
    var e := Entries(layout, qs, ans, |qs|);
    var w := WrongIndices(qs, ans, |qs|);
    EntriesListWrongIndices(layout, qs, ans, |qs|);
    forall k | 0 <= k < |w|
      ensures Framed(header, e, closing)[|header| + 4 * k .. |header| + 4 * k + 4] == e[4 * k .. 4 * k + 4]
    {
      FramedSlice(header, e, closing, 4 * k, 4 * k + 4);
    }
  }

  lemma FramedReviewClosing(layout: Layout, header: seq<string>, closing: string, qs: seq<Question>, ans: Answers)
    requires closing != Separator(layout)
    ensures var lines := Framed(header, Entries(layout, qs, ans, |qs|), closing);
      |lines| > 0 && (lines[|lines| - 1] == closing <==> WrongIndices(qs, ans, |qs|) == [])
  {
    var e := Entries(layout, qs, ans, |qs|);
    EntriesListWrongIndices(layout, qs, ans, |qs|);
    if e != [] {
      EntriesEndWithSeparator(layout, qs, ans, |qs|);
    }
    FramedLast(header, e, closing);
  }

  /** The review loop shared by both reports: starting from the lines
      already written, append the entry of every question whose answer text
      differs from the correct one, and report whether any was appended
      (the `wrong_found` / `incorrect_found` flag). */
  method AppendReview(layout: Layout, prefix: seq<string>, qs: seq<Question>, ans: Answers)
    returns (lines: seq<string>, found: bool)
    ensures lines == prefix + Entries(layout, qs, ans, |qs|)
    ensures found <==> Entries(layout, qs, ans, |qs|) != []
  {
    lines := prefix;
    found := false;
    for i := 0 to |qs|
      invariant lines == prefix + Entries(layout, qs, ans, i)
      invariant found <==> Entries(layout, qs, ans, i) != []
    {
      var a := Lookup(ans, i);
      EntriesStep(layout, qs, ans, i);
      if Text(a) != qs[i].correct {
        found := true;
        AppendAssoc(prefix, Entries(layout, qs, ans, i), EntryLines(layout, qs[i], i, a));
        lines := lines + EntryLines(layout, qs[i], i, a);
      }
    }
  }

  /** The text file shows an answer as its compared text except for the empty
      answer, which it shows as "None" while comparing "". */
  lemma ShownAnswerDiffersOnlyWhenEmpty(a: Option<string>)
    ensures AnswerShown(Card, a) == Text(a)
    ensures AnswerShown(Txt, a) == Text(a) <==> a != Some("")
  {
  }
}
