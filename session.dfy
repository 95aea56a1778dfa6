/**
 * The exam session of app.py: the flags and values the script keeps in
 * `st.session_state` between reruns, and the transitions each screen makes.
 * Time is whole seconds passed in by the caller (`time.time()`).
 */
module Session {
  import opened Wrappers
  import opened Scoring
  import opened ResultCard

  /** The screen a rerun renders, chosen by the guards of the script. */
  datatype Screen = NoQuestions | StartScreen | ExamScreen | ResultScreen

  /** The guards in order: questions loaded, then start page, exam page,
      result page. */
  function ScreenOf(hasQuestions: bool, active: bool, submitted: bool): Screen {
    if !hasQuestions then NoQuestions
    else if !active && !submitted then StartScreen
    else if active && !submitted then ExamScreen
    else ResultScreen
  }

  /** When `exam_active` and `submitted` are never both true, each screen
      is rendered for exactly one setting of the two flags. */
  lemma ScreensPartition(hasQuestions: bool, active: bool, submitted: bool)
    requires !(active && submitted)
    ensures !hasQuestions <==> ScreenOf(hasQuestions, active, submitted) == NoQuestions
    ensures hasQuestions ==>
      && (ScreenOf(hasQuestions, active, submitted) == StartScreen <==> !active && !submitted)
      && (ScreenOf(hasQuestions, active, submitted) == ExamScreen <==> active)
      && (ScreenOf(hasQuestions, active, submitted) == ResultScreen <==> submitted)
  {
  }

  /** One minute per question. */
  const SecondsPerQuestion := 60

  /** `remaining = end_time - current_time`, and time is up when
      `remaining <= 0`. */
  predicate TimeIsUp(endTime: int, now: int) {
    endTime - now <= 0
  }

  /** A deadline set by Start at `start` for `n` questions has passed at
      `now` exactly when a minute per question has gone by; with at least one
      question it has not passed at the moment of starting. */
  lemma DeadlineAfterStart(start: int, n: nat, now: int)
    ensures TimeIsUp(start + SecondsPerQuestion * n, now) <==> now - start >= 60 * n
    ensures n >= 1 ==> !TimeIsUp(start + SecondsPerQuestion * n, start)
  {
  }

  /** `user_answers` as the exam form builds it: every question position
      maps to its radio selection, `None` when nothing was selected. */
  function FormAnswers(selections: seq<Option<string>>): Answers {
    map i: nat | i < |selections| :: selections[i]
  }

  /** The form records each selection under its own position and nothing
      else, so scoring it compares selection i with question i. */
  lemma FormAnswersLookup(selections: seq<Option<string>>, i: nat)
    ensures Lookup(FormAnswers(selections), i) == if i < |selections| then selections[i] else None
  {
  }

  /** What the result screen shows: the score, the total, and the card. */
  datatype ResultView = ResultView(score: nat, total: nat, card: seq<string>)

  class ExamSession {
    /** What `get_questions()` returns, or `None` when the file could not
        be read. It is cached (`@st.cache_data`), so an initialisation of the
        session receives the same shuffled bank unless the cache is
        cleared. */
    const loaded: Option<seq<Question>>

    var questions: Option<seq<Question>>
    var active: bool
    var submitted: bool
    var endTime: Option<int>
    var finalAnswers: Option<Answers>

    /** The states the transitions can reach: the two flags are never both
        set, a deadline exists exactly once the exam has started, answers
        are stored only after a submission, and the questions are the cached
        bank. */
    ghost predicate Valid()
      reads this
    {
      && !(active && submitted)
      && (endTime.Some? <==> active || submitted)
      && (finalAnswers.Some? ==> submitted)
      && questions == loaded
      && (active || submitted ==> questions.Some?)
    }

    /** The screen the next rerun renders. */
    function CurrentScreen(): Screen
      reads this
    {
      ScreenOf(questions.Some?, active, submitted)
    }

    /** The answers scored on the result screen:
        `st.session_state.get('final_answers', {})`. */
    function ScoredAnswers(): Answers
      reads this
    {
      finalAnswers.GetOr(map[])
    }

    /** The first run of the script: every missing key is initialised, the
        flags to false, the deadline to `None`, the questions from the
        loader; `final_answers` is not set. */
    constructor (bank: Option<seq<Question>>)
      ensures Valid()
      ensures loaded == bank && questions == bank
      ensures !active && !submitted && endTime == None && finalAnswers == None
      ensures CurrentScreen() == if bank.Some? then StartScreen else NoQuestions
    {
      loaded := bank;
      questions := bank;
      active := false;
      submitted := false;
      endTime := None;
      finalAnswers := None;
    }

    /** The Start button: the deadline is now plus a minute per question and
        the exam becomes active. */
    method Start(now: int)
      requires Valid() && CurrentScreen() == StartScreen
      modifies this
      ensures Valid() && CurrentScreen() == ExamScreen
      ensures active && !submitted
      ensures endTime == Some(now + SecondsPerQuestion * |questions.value|)
      ensures questions == old(questions) && finalAnswers == old(finalAnswers)
    {
      var durationSecs := |questions.value| * SecondsPerQuestion;
      endTime := Some(now + durationSecs);
      active := true;
    }

    /** The top of the exam screen: when time is up the exam is submitted
        automatically and no answers are stored. */
    method CheckExpiry(now: int) returns (expired: bool)
      requires Valid() && CurrentScreen() == ExamScreen
      modifies this
      ensures Valid()
      ensures expired <==> TimeIsUp(old(endTime).value, now)
      ensures expired ==> !active && submitted && CurrentScreen() == ResultScreen
      ensures !expired ==> active && !submitted
      ensures endTime == old(endTime) && finalAnswers == old(finalAnswers) && questions == old(questions)
    {
      var remaining := endTime.value - now;
      expired := remaining <= 0;
      if expired {
        submitted := true;
        active := false;
      }
    }

    /** The Submit button of the exam form: the form's answers are stored
        and the exam is submitted. */
    method Submit(selections: seq<Option<string>>)
      requires Valid() && CurrentScreen() == ExamScreen
      requires |selections| == |questions.value|
      modifies this
      ensures Valid() && CurrentScreen() == ResultScreen
      ensures finalAnswers == Some(FormAnswers(selections))
      ensures submitted && !active
      ensures endTime == old(endTime) && questions == old(questions)
    {
      var userAnswers: Answers := map[];
      for i := 0 to |selections|
        invariant userAnswers == FormAnswers(selections[..i])
      {
        userAnswers := userAnswers[i := selections[i]];
        assert userAnswers == FormAnswers(selections[..i + 1]);
      }
      assert selections[..|selections|] == selections;
      finalAnswers := Some(userAnswers);
      submitted := true;
      active := false;
    }

    /** One rerun of the exam screen. The expiry check runs before the form,
        so a Submit click that arrives after the deadline is lost: the exam
        is submitted with no stored answers. */
    method ExamRerun(now: int, submitClicked: bool, selections: seq<Option<string>>) returns (expired: bool)
      requires Valid() && CurrentScreen() == ExamScreen
      requires |selections| == |questions.value|
      modifies this
      ensures Valid()
      ensures expired <==> TimeIsUp(old(endTime).value, now)
      ensures expired ==> finalAnswers == None && submitted && !active
      ensures !expired && submitClicked ==> finalAnswers == Some(FormAnswers(selections)) && submitted && !active
      ensures !expired && !submitClicked ==> finalAnswers == old(finalAnswers) && active && !submitted
      ensures endTime == old(endTime) && questions == old(questions)
    {
      expired := CheckExpiry(now);
      if !expired && submitClicked {
        Submit(selections);
      }
    }

    /** The result screen: the score is counted over the questions, the
        percentage divides by their number (ZeroDivisionError when there are
        none), and the card is generated. */
    method Results(timestamp: string, percent: string) returns (r: Result<ResultView, Fault>)
      requires Valid() && CurrentScreen() == ResultScreen
      ensures |questions.value| == 0 ==> r == Failure(ZeroDivision)
      ensures |questions.value| > 0 ==> r.Success?
      ensures r.Success? ==>
        var qs := questions.value;
        var score := CorrectCount(qs, ScoredAnswers(), |qs|);
        r.value == ResultView(score, |qs|, CardLines(score, |qs|, qs, ScoredAnswers(), timestamp, percent))
    {
      var qs := questions.value;
      var totalQs := |qs|;
      var ansData := finalAnswers.GetOr(map[]);
      var score := Score(qs, ansData);
      if totalQs == 0 {
        return Failure(ZeroDivision);
      }
      var resultText := CreateResultCard(score, totalQs, ansData, qs, timestamp, percent);
      return Success(ResultView(score, totalQs, resultText.value));
    }

    /** The Restart button deletes the five keys; the rerun that follows
        initialises them again, with the cached questions. The button is
        drawn after the percentage at app.py:139, so with no questions that
        division fails first and the button never appears. */
    method Restart()
      requires Valid() && CurrentScreen() == ResultScreen
      requires |questions.value| > 0
      modifies this
      ensures Valid()
      ensures !active && !submitted && endTime == None && finalAnswers == None
      ensures questions == loaded
      ensures CurrentScreen() == StartScreen
    {
      active := false;
      submitted := false;
      endTime := None;
      questions := loaded;
      finalAnswers := None;
    }
  }

  /** The walkthrough's answers score the first question only, and the
      review lists the second and the third. */
  lemma WalkthroughScore(qs: seq<Question>)
    requires qs == [Question("q1", ["A", "B", "C", "D"], "A"),
                    Question("q2", ["A", "B", "C", "D"], "B"),
                    Question("q3", ["A", "B", "C", "D"], "C")]
    ensures var ans := FormAnswers([Some("A"), Some("X"), None]);
      CorrectCount(qs, ans, 3) == 1 && WrongIndices(qs, ans, 3) == [1, 2]
  {
    var sel := [Some("A"), Some("X"), None];
    var ans := FormAnswers(sel);
    FormAnswersLookup(sel, 0);
    FormAnswersLookup(sel, 1);
    FormAnswersLookup(sel, 2);
    assert IsCorrect(qs, ans, 0) && !IsCorrect(qs, ans, 1) && !IsCorrect(qs, ans, 2);
    assert CorrectCount(qs, ans, 1) == 1 && CorrectCount(qs, ans, 2) == 1;
    assert WrongIndices(qs, ans, 1) == [] && WrongIndices(qs, ans, 2) == [1];
  }

  /** A whole session: three questions with correct answers A, B and C; the
      student answers A, X and nothing, submits in time, and restarts. */
  method Walkthrough(start: int)
  {
    var qs := [Question("q1", ["A", "B", "C", "D"], "A"),
               Question("q2", ["A", "B", "C", "D"], "B"),
               Question("q3", ["A", "B", "C", "D"], "C")];
    var s := new ExamSession(Some(qs));
    s.Start(start);
    assert s.endTime == Some(start + 180);
    var expired := s.ExamRerun(start + 100, true, [Some("A"), Some("X"), None]);
    assert !expired;
    var r := s.Results("t", "33.3");
    WalkthroughScore(qs);
    assert r.Success? && r.value.score == 1 && r.value.total == 3;
    assert WrongIndices(qs, s.ScoredAnswers(), 3) == [1, 2];
    s.Restart();
    assert s.CurrentScreen() == StartScreen && s.questions == Some(qs);
  }
}
