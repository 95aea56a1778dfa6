# fastexam: the exam session and its result reports, in Dafny

fastexam is a timed multiple-choice exam written as a Streamlit script. The
script keeps a few flags in the per-browser session store (`exam_active`,
`submitted`, `end_time`, `final_answers`, `questions`). The flags choose
one of three screens on every rerun:

- the start page, whose Start button sets a deadline of one minute per
  question;
- the exam form, which checks the deadline first and auto-submits once it
  has passed;
- the result page, which scores the answers, offers a downloadable result
  card and has a Restart button.

A second, plain-text result report is generated by `generate_result_txt`
in `utils.py`.

This project models:

- `wrappers.dfy` (`Wrappers`): `Option` and `Result`.
- `scoring.dfy` (`Scoring`): a question, the answer map the form
  collects, and the scoring rule. An answer is compared as text: a missing
  answer is the text `"None"` (`str(None)`).
  - The scoring loop is `Score`, specified by `CorrectCount`.
  - The questions the rule does not count are given as `WrongIndices`.
  - The pass threshold is `score / total * 100 >= 40` in exact arithmetic.
- `review.dfy` (`Review`): the "incorrect questions" review both reports
  contain. It emits four lines per wrong question, in question order, from
  one loop, `AppendReview`. A `Layout` gives the two reports' differences:
  how the answer is shown and the separator width. The review is then
  framed by a header and by a closing line that appears only when the
  review is empty.
- `result_card.dfy` (`ResultCard`): `create_result_card` of `app.py`.
- `result_txt.dfy` (`ResultTxt`): `generate_result_txt` of `utils.py`.
- `session.dfy` (`Session`): the class `ExamSession` with the session
  flags as fields and one method per transition:
  - the first run's initialisation;
  - Start;
  - the expiry check;
  - Submit;
  - one rerun of the exam screen;
  - the result screen;
  - Restart.

  Its invariant `Valid` says that `exam_active` and `submitted` are never
  both set. A client method, `Walkthrough`, runs one whole session.

A report is modelled as the sequence of pieces the code ends with `"\n"`:
the text is those pieces joined by line breaks. The current time
(`time.time()`), the timestamp (`datetime.now()`) and the formatted
percentage are parameters: the time in whole seconds, the other two as
opaque text. A division by a total of zero, which raises
`ZeroDivisionError` in both reports and on the result screen, is the
`Failure(ZeroDivision)` result.

Two policies the code fixes:

- **Late submission.** The exam screen checks the deadline before it
  builds the form. A Submit click processed after the deadline therefore
  never reaches the form's handler. The exam is submitted with no stored
  answers, and every question is scored as unanswered.
  `ExamSession.ExamRerun` states this policy.
- **Restart does not re-shuffle the bank.** `get_questions` is cached
  (`@st.cache_data`). Unless the cache is cleared, the re-initialisation
  after Restart receives the same shuffled bank. The bank is the constant
  `ExamSession.loaded`, and `Restart` puts it back.

## Model

| member | source | states |
|---|---|---|
| Scoring.Score | app.py:132-137 | the loop's score is the number of questions whose answer text equals the correct answer, i.e. the size of the set of correctly answered positions, and never exceeds the number of questions |
| Scoring.CorrectCountIsCardinality | app.py:135-137 | counting correct answers question by question gives the size of the set of positions answered correctly |
| Scoring.WrongIndicesExact | app.py:56-59 | the uncounted questions are exactly the positions whose answer text differs from the correct answer, listed in strictly increasing (question) order |
| Scoring.ScoreAndWrongPartition | app.py:135-137 | score plus the number of uncounted questions equals the number of questions |
| Scoring.UnansweredScore | app.py:133 | with the empty answer map used after an automatic submit, the score is 0 unless a correct answer is literally "None", and all when every correct answer is "None" |
| Scoring.ScoreDependsOnlyOnQuestionPositions | app.py:135-136 | two answer maps that agree on the question positions give the same score and the same uncounted questions |
| Scoring.PercentBounds | app.py:139 | a score not above the total gives a percentage between 0 and 100 |
| Scoring.PassedIffIntegerThreshold | app.py:51 | the status test `perc >= 40` holds exactly when score * 100 >= 40 * total |
| Review.EntriesListWrongIndices | app.py:56-64 | the review has four lines per uncounted question, and lines 4k to 4k+3 name the k-th uncounted question (Q{i+1}, its text), the answer shown and the correct answer, then a separator |
| Review.EntriesEmptyIffAllCorrect | app.py:55-60 | the review is empty exactly when every question is counted in the score |
| Review.EntriesEndWithSeparator | app.py:64 | a non-empty review ends with a separator line |
| Review.FramedReview | app.py:55-67 | a report lists the uncounted questions' entries right after its header, has header + 4 * wrong lines plus one closing line only when nothing is wrong, and ends with its closing line exactly when nothing is wrong |
| Review.AppendReview | app.py:55-64 | the loop appends exactly the review to the lines already written, and its flag is set exactly when the review is non-empty |
| Review.ShownAnswerDiffersOnlyWhenEmpty | utils.py:80 | the card shows the compared text of the answer; the text file shows it too, except that it shows the empty answer as "None" |
| ResultCard.CreateResultCard | app.py:44-69 | a total of zero is the division error; otherwise the card is its seven header lines, the review and, only for an empty review, the congratulation line |
| ResultCard.CardReview | app.py:55-67 | with the score the result screen computes, the card lists exactly the total - score wrong questions from line 7 on in question order, and its last line is the congratulation exactly when the score is full |
| ResultCard.CardLayout | app.py:48-67 | for any score argument, the card has 7 + 4 * wrong lines plus one closing line only when nothing is wrong, entry k at lines 7 + 4k to 10 + 4k, and the congratulation last exactly when no question is wrong |
| ResultCard.CardStatus | app.py:45-51 | the status line reads PASSED exactly when the percentage is at least 40 |
| ResultTxt.GenerateResultTxt | utils.py:70-83 | a total of zero is the division error; otherwise the report is its seven header lines, the review and, only for an empty review, the perfect-score line |
| ResultTxt.TxtReport | utils.py:75-82 | the report lists from line 7 on, in question order, exactly the questions whose answer text differs from the correct one, four lines each, and ends with the perfect-score line exactly when none is listed |
| ResultTxt.TxtLayout | utils.py:71-82 | the report has 7 + 4 * wrong lines plus one closing line only when nothing is wrong, entry k at lines 7 + 4k to 10 + 4k, and the perfect-score line last exactly when no question is wrong |
| ResultTxt.TxtReviewIgnoresScore | utils.py:70-80 | reports written with different score arguments agree from the review on; with the result screen's score the review has 4 * (total - score) lines |
| Session.ScreensPartition | app.py:74-129 | while the two flags are never both set, each screen is rendered for exactly one setting of them |
| Session.DeadlineAfterStart | app.py:93-96 | a deadline set at start for n questions has passed exactly when 60 * n seconds have gone by, and has not passed at the start when there is a question |
| Session.FormAnswersLookup | app.py:112-117 | the form's answer map holds each question's selection under its position (None when nothing is selected) and nothing else |
| Session.ExamSession.constructor | app.py:34-41 | the first run starts with both flags false, no deadline, no stored answers and the loaded bank, on the start screen when the bank loaded |
| Session.ExamSession.Start | app.py:84-87 | the deadline becomes now + 60 * number of questions and the exam becomes active, not submitted; the invariant holds and the exam screen follows |
| Session.ExamSession.CheckExpiry | app.py:92-100 | it reports expiry exactly when end_time - now <= 0; on expiry the exam is submitted and inactive with no answers written, otherwise nothing changes |
| Session.ExamSession.Submit | app.py:110-126 | the stored answers become the form's selections by position, and the exam is submitted and inactive |
| Session.ExamSession.ExamRerun | app.py:90-126 | after the deadline the exam is submitted with no stored answers, even when Submit was clicked; before it a click stores the selections, and no click changes nothing |
| Session.ExamSession.Results | app.py:129-143 | with no questions the division error; otherwise the score counted over the stored answers (the empty map when none were stored), the total, and the result card for them |
| Session.ExamSession.Restart | app.py:162-166 | on a result screen with questions (the button is drawn only after the percentage at app.py:139 succeeds), the session returns to the start state: both flags false, no deadline, no stored answers, and the cached bank as the questions |

## Left out

- Streamlit rendering is not modelled: the page config, CSS, titles, info
  boxes, the sidebar timer (`divmod(int(remaining), 60)`), radio widgets,
  the download button and `st.rerun()` (app.py:7-20, 80-82, 102-118,
  140-149). A rerun is a call of the next transition.
- The in-page review of wrong answers (app.py:152-160) is display only. It
  applies the same rule as the card's review.
- `get_questions` (app.py:23-31) reads `questions.csv` with pandas and
  shuffles it. The model takes its result, a question sequence or `None`,
  as given. Pandas cell types are not modelled: every answer and correct
  answer is text, so `nan` and numeric cells are not represented.
- `render_timer` and `apply_custom_css` (utils.py:5-68) are injected
  JavaScript and CSS running in the browser.
- `database.py`, `pages/admin.py` and `auth.py` are spreadsheet I/O, an
  upload page and a login form, and are not part of this model.
- Time: `time.time()` is a float; here it is whole seconds.
- Timestamps: `datetime.now().strftime(...)` is an opaque text parameter.
- Percentages: the `:.1f` and `round(..., 1)` formatting of the percentage
  is an opaque text parameter. It is not checked against the score.
- Trailing newline: the card and the text file end with a newline after the
  last review entry, and the line model does not show it.
- Line breaks inside texts: each element of a report is one piece the code
  ends with `"\n"`. A question text, answer, correct answer, timestamp or
  percentage that itself contains a line break is kept inside its piece.
  Such a report, split at every line break, has more lines than the model's
  "line 7 + 4k" and "four lines each" statements count. Texts are assumed
  to contain no line break.
- ResultCard.CardStatus: the status is proved against exact arithmetic
  `score / total * 100 >= 40`. Python's floating-point division could round
  differently at the boundary, and that is not modelled.
- Session.ExamSession.loaded: the bank is a constant of the session. The
  admin page's "Refresh Data" button (`st.cache_data.clear()`,
  pages/admin.py:20) empties the cache of `get_questions`. The next
  initialisation after it re-reads `questions.csv`, which may be a new
  upload, and shuffles it again. The model does not capture that.
