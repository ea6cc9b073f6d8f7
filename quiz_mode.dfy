/** The proctored exam page of frontend/src/pages/QuizMode.jsx: the answer
    map, the score, the two strike counters and the rule that forces a
    submission, the once-only submit guard, the fullscreen, camera and timer
    triggers, and the key filter. Timeouts are explicit events and the clock
    is a parameter. */
module QuizMode {
  import opened JsBuiltins
  import opened QuizData

  const SecondsPerQuestion: nat := 60
  const StrikeLimit: nat := 3

  // ---------------------------------------------------------------- score

  /** Question `i` has a recorded answer and it picks the correct option. */
  predicate Correct(q: Question, answers: map<nat, nat>, i: nat) {
    i in answers && answers[i] < |q.options| && q.options[answers[i]] == q.answer
  }

  /** The number of correct answers among the first `n` questions. */
  function ScoreUpTo(quiz: seq<Question>, answers: map<nat, nat>, n: nat): (r: nat)
    requires n <= |quiz|
    ensures r <= n
  {
    if n == 0 then 0
    else ScoreUpTo(quiz, answers, n - 1) + (if Correct(quiz[n - 1], answers, n - 1) then 1 else 0)
  }

  /** What `scoreNow()` returns. */
  function Score(quiz: seq<Question>, answers: map<nat, nat>): nat {
    ScoreUpTo(quiz, answers, |quiz|)
  }

  /** The indices among the first `n` that score. */
  function CorrectBelow(quiz: seq<Question>, answers: map<nat, nat>, n: nat): set<nat>
    requires n <= |quiz|
  {
    set i: nat | i < n && Correct(quiz[i], answers, i)
  }

  /** The score is the number of questions whose recorded answer is right,
      so it lies between 0 and the number of questions. */
  lemma {:induction false} ScoreCounts(quiz: seq<Question>, answers: map<nat, nat>, n: nat)
    requires n <= |quiz|
    ensures ScoreUpTo(quiz, answers, n) == |CorrectBelow(quiz, answers, n)|
    ensures 0 <= ScoreUpTo(quiz, answers, n) <= n
  {
    if n > 0 {
      ScoreCounts(quiz, answers, n - 1);
      var below := CorrectBelow(quiz, answers, n - 1);
      if Correct(quiz[n - 1], answers, n - 1) {
        assert CorrectBelow(quiz, answers, n) == below + {n - 1};
        assert n - 1 !in below;
      } else {
        assert CorrectBelow(quiz, answers, n) == below;
      }
    }
  }

  /** Unanswered questions never count: with no answers the score is 0. */
  lemma {:induction false} ScoreNoAnswers(quiz: seq<Question>, n: nat)
    requires n <= |quiz|
    ensures ScoreUpTo(quiz, map[], n) == 0
  {
    if n > 0 {
      ScoreNoAnswers(quiz, n - 1);
    }
  }

  /** All answers right is a full score. */
  lemma {:induction false} ScoreAllCorrect(quiz: seq<Question>, answers: map<nat, nat>, n: nat)
    requires n <= |quiz|
    requires forall i: nat :: i < |quiz| ==> Correct(quiz[i], answers, i)
    ensures ScoreUpTo(quiz, answers, n) == n
  {
    if n > 0 {
      ScoreAllCorrect(quiz, answers, n - 1);
    }
  }

  /** Changing the answer to question `i` moves the score only by what
      question `i` itself contributes before and after. */
  lemma {:induction false} ScoreSelect(quiz: seq<Question>, answers: map<nat, nat>, i: nat, j: nat, n: nat)
    requires n <= |quiz|
    ensures ScoreUpTo(quiz, answers[i := j], n) + (if i < n && Correct(quiz[i], answers, i) then 1 else 0)
         == ScoreUpTo(quiz, answers, n) + (if i < n && Correct(quiz[i], answers[i := j], i) then 1 else 0)
  {
    if n > 0 {
      ScoreSelect(quiz, answers, i, j, n - 1);
      if n - 1 != i {
        assert Correct(quiz[n - 1], answers[i := j], n - 1) == Correct(quiz[n - 1], answers, n - 1);
      }
    }
  }

  // --------------------------------------------------------- strike rule

  /** The test in `addStrike`, on the new counter values. */
  predicate ForcesSubmit(fs: nat, tab: nat) {
    fs >= StrikeLimit || tab >= StrikeLimit || (fs >= 1 && tab >= 1) || fs + tab >= StrikeLimit
  }

  /** The rule is "both kinds seen, or three strikes in all". */
  lemma ForcesSubmitIff(fs: nat, tab: nat)
    ensures ForcesSubmit(fs, tab) <==> (fs >= 1 && tab >= 1) || fs + tab >= 3
  {
  }

  /** The first strike never forces; one kind alone needs three; one of
      each forces at two. */
  lemma StrikeThresholds(n: nat)
    ensures !ForcesSubmit(1, 0) && !ForcesSubmit(0, 1)
    ensures ForcesSubmit(n, 0) <==> n >= 3
    ensures ForcesSubmit(0, n) <==> n >= 3
    ensures ForcesSubmit(1, 1)
  {
  }

  // ------------------------------------------------------------ key filter

  /** A `keydown`: `e.key`, `e.ctrlKey`, `e.shiftKey`. */
  datatype KeyPress = KeyPress(key: string, ctrl: bool, shift: bool)

  /** `keyBlock` calls `preventDefault` (one of its two tests holds). */
  predicate PreventsDefault(e: KeyPress) {
    var k := LowerAsciiString(e.key);
    || k == "f5" || (e.ctrl && k == "r")
    || k == "f12" || (e.ctrl && e.shift && k in ["i", "j", "c"])
  }

  /** Blocked are F5 and F12 in any case, Ctrl+R, and Ctrl+Shift with I, J
      or C, whatever the case of the letter; nothing else. */
  lemma PreventsDefaultIff(e: KeyPress)
    ensures PreventsDefault(e) <==>
      || SameIgnoringCase(e.key, "f5") || SameIgnoringCase(e.key, "f12")
      || (e.ctrl && SameIgnoringCase(e.key, "r"))
      || (e.ctrl && e.shift &&
          (SameIgnoringCase(e.key, "i") || SameIgnoringCase(e.key, "j") || SameIgnoringCase(e.key, "c")))
  {
    LowerAsciiStringEq(e.key, "f5");
    LowerAsciiStringEq(e.key, "f12");
    LowerAsciiStringEq(e.key, "r");
    LowerAsciiStringEq(e.key, "i");
    LowerAsciiStringEq(e.key, "j");
    LowerAsciiStringEq(e.key, "c");
  }

  lemma KeyExamples()
    ensures PreventsDefault(KeyPress("F5", false, false))
    ensures PreventsDefault(KeyPress("R", true, false))
    ensures PreventsDefault(KeyPress("I", true, true))
    ensures !PreventsDefault(KeyPress("r", false, false))
    ensures !PreventsDefault(KeyPress("i", true, false))
    ensures !PreventsDefault(KeyPress("F11", true, true))
  {
    PreventsDefaultIff(KeyPress("F5", false, false));
    PreventsDefaultIff(KeyPress("R", true, false));
    PreventsDefaultIff(KeyPress("I", true, true));
    PreventsDefaultIff(KeyPress("F11", true, true));
    assert !SameIgnoringCase("F11", "f12") by {
      assert "F11"[2] != "f12"[2] && "F11"[2] != UpperAscii("f12"[2]);
    }
    PreventsDefaultIff(KeyPress("i", true, false));
    assert !SameIgnoringCase("i", "r") by {
      assert "i"[0] != "r"[0] && "i"[0] != UpperAscii("r"[0]);
    }
  }

  // ------------------------------------------------------------- session

  datatype StrikeKind = Fs | Tab

  /** The body posted to `submit_attempt`. */
  datatype Submission = Submission(
    quizId: int,
    answers: map<nat, nat>,
    score: nat,
    timeTaken: int,
    totalTime: nat,
    totalQuestions: nat,
    auto: bool)

  /** The page's state for one active quiz. `autoSubmits` counts the 400 ms
      auto-submit timeouts scheduled and not yet fired; `sent` the attempts
      posted. */
  class ExamSession {
    const quiz: seq<Question>
    const quizId: int
    const startTime: int
    var submitted: bool
    var fsExitCount: nat
    var tabSwitchCount: nat
    var fsModal: bool
    var answers: map<nat, nat>
    var autoSubmits: nat
    var sent: seq<Submission>

    /** An attempt has been posted exactly when the session is submitted,
        and never more than one. This holds for events read against the
        latest state; the page's 400 ms auto-submit and its camera handler
        call a `submitExam` closed over an older `submitted`, and can post
        a second attempt, which this model does not capture. */
    ghost predicate Valid()
      reads this
    {
      |sent| <= 1 && (submitted <==> |sent| == 1)
    }

    /** `count * 60`. */
    function TotalSeconds(): nat {
      SecondsPerQuestion * |quiz|
    }

    constructor (quiz: seq<Question>, quizId: int, startTime: int)
      ensures Valid()
      ensures this.quiz == quiz && this.quizId == quizId && this.startTime == startTime
      ensures TotalSeconds() == 60 * |quiz|
      ensures !submitted && fsExitCount == 0 && tabSwitchCount == 0 && !fsModal
      ensures answers == map[] && autoSubmits == 0 && sent == []
    {
      this.quiz := quiz;
      this.quizId := quizId;
      this.startTime := startTime;
      submitted, fsExitCount, tabSwitchCount, fsModal := false, 0, 0, false;
      answers, autoSubmits, sent := map[], 0, [];
    }

    /** `scoreNow()`: the `forEach` that counts correct answers. */
    method ScoreNow() returns (s: nat)
      ensures s == Score(quiz, answers)
    {
      s := 0;
      for i := 0 to |quiz|
        invariant s == ScoreUpTo(quiz, answers, i)
      {
        if i in answers && answers[i] < |quiz[i].options| && quiz[i].options[answers[i]] == quiz[i].answer {
          s := s + 1;
        }
      }
    }

    /** `submitExam(auto)` at time `now` (milliseconds): nothing once
        submitted; otherwise mark submitted and post one attempt with the
        current answers, their score and the whole seconds used. */
    method SubmitExam(auto: bool, now: int)
      requires Valid()
      modifies this
      ensures Valid()
      ensures old(submitted) ==> sent == old(sent)
      ensures !old(submitted) ==>
        sent == [Submission(quizId, answers, Score(quiz, answers), (now - startTime) / 1000,
                            TotalSeconds(), |quiz|, auto)]
      ensures submitted
      ensures answers == old(answers) && autoSubmits == old(autoSubmits)
      ensures fsExitCount == old(fsExitCount) && tabSwitchCount == old(tabSwitchCount)
      ensures fsModal == old(fsModal)
    {
      if submitted {
        return;
      }
      submitted := true;
      var usedTime := (now - startTime) / 1000;
      var score := ScoreNow();
      sent := sent + [Submission(quizId, answers, score, usedTime, TotalSeconds(), |quiz|, auto)];
    }

    /** `addStrike(type)`: nothing once submitted; otherwise one counter goes
        up by one and, when the rule holds, an auto-submit is scheduled. */
    method AddStrike(kind: StrikeKind)
      requires Valid()
      modifies this
      ensures Valid()
      ensures old(submitted) ==>
        fsExitCount == old(fsExitCount) && tabSwitchCount == old(tabSwitchCount) && autoSubmits == old(autoSubmits)
      ensures !old(submitted) ==>
        && fsExitCount == old(fsExitCount) + (if kind == Fs then 1 else 0)
        && tabSwitchCount == old(tabSwitchCount) + (if kind == Tab then 1 else 0)
        && autoSubmits == old(autoSubmits) + (if ForcesSubmit(fsExitCount, tabSwitchCount) then 1 else 0)
      ensures submitted == old(submitted) && sent == old(sent) && answers == old(answers)
      ensures fsModal == old(fsModal)
    {
      if submitted {
        return;
      }
      var newFs := if kind == Fs then fsExitCount + 1 else fsExitCount;
      var newTab := if kind == Tab then tabSwitchCount + 1 else tabSwitchCount;
      fsExitCount, tabSwitchCount := newFs, newTab;
      if ForcesSubmit(newFs, newTab) {
        autoSubmits := autoSubmits + 1;
      }
    }

    /** A scheduled auto-submit timeout fires. The page's callback checks a
        `submitted` read when it was scheduled; this one checks the latest. */
    method AutoSubmitTimeout(now: int)
      requires Valid()
      requires autoSubmits > 0
      modifies this
      ensures Valid()
      ensures autoSubmits == old(autoSubmits) - 1 && submitted
      ensures old(submitted) ==> sent == old(sent)
      ensures !old(submitted) ==>
        sent == [Submission(quizId, answers, Score(quiz, answers), (now - startTime) / 1000,
                            TotalSeconds(), |quiz|, true)]
      ensures answers == old(answers) && fsModal == old(fsModal)
      ensures fsExitCount == old(fsExitCount) && tabSwitchCount == old(tabSwitchCount)
    {
      autoSubmits := autoSubmits - 1;
      SubmitExam(true, now);
    }

    /** `fullscreenchange`: leaving fullscreen before submission shows the
        modal and counts a fullscreen strike. */
    method FullscreenChange(hasFullscreenElement: bool)
      requires Valid()
      modifies this
      ensures Valid()
      ensures hasFullscreenElement || old(submitted) ==>
        fsExitCount == old(fsExitCount) && tabSwitchCount == old(tabSwitchCount) &&
        fsModal == old(fsModal) && autoSubmits == old(autoSubmits)
      ensures !hasFullscreenElement && !old(submitted) ==>
        && fsModal
        && fsExitCount == old(fsExitCount) + 1 && tabSwitchCount == old(tabSwitchCount)
        && autoSubmits == old(autoSubmits) + (if ForcesSubmit(fsExitCount, tabSwitchCount) then 1 else 0)
      ensures submitted == old(submitted) && sent == old(sent) && answers == old(answers)
    {
      if !hasFullscreenElement && !submitted {
        fsModal := true;
        AddStrike(Fs);
      }
    }

    /** `getUserMedia` rejected: submit at once. The page's handler checks
        the `submitted` of the first render; this one checks the latest. */
    method CameraDenied(now: int)
      requires Valid()
      modifies this
      ensures Valid()
      ensures submitted
      ensures old(submitted) ==> sent == old(sent)
      ensures !old(submitted) ==>
        sent == [Submission(quizId, answers, Score(quiz, answers), (now - startTime) / 1000,
                            TotalSeconds(), |quiz|, true)]
      ensures answers == old(answers) && fsModal == old(fsModal)
      ensures fsExitCount == old(fsExitCount) && tabSwitchCount == old(tabSwitchCount)
      ensures autoSubmits == old(autoSubmits)
    {
      SubmitExam(true, now);
    }

    /** The timer's `onEnd`: submit at once. */
    method TimerEnded(now: int)
      requires Valid()
      modifies this
      ensures Valid()
      ensures submitted
      ensures old(submitted) ==> sent == old(sent)
      ensures !old(submitted) ==>
        sent == [Submission(quizId, answers, Score(quiz, answers), (now - startTime) / 1000,
                            TotalSeconds(), |quiz|, true)]
      ensures answers == old(answers) && fsModal == old(fsModal)
      ensures fsExitCount == old(fsExitCount) && tabSwitchCount == old(tabSwitchCount)
      ensures autoSubmits == old(autoSubmits)
    {
      SubmitExam(true, now);
    }

    /** The Submit button. */
    method SubmitClicked(now: int)
      requires Valid()
      modifies this
      ensures Valid()
      ensures submitted
      ensures old(submitted) ==> sent == old(sent)
      ensures !old(submitted) ==>
        sent == [Submission(quizId, answers, Score(quiz, answers), (now - startTime) / 1000,
                            TotalSeconds(), |quiz|, false)]
      ensures answers == old(answers) && fsModal == old(fsModal)
      ensures fsExitCount == old(fsExitCount) && tabSwitchCount == old(tabSwitchCount)
      ensures autoSubmits == old(autoSubmits)
    {
      SubmitExam(false, now);
    }

    /** Picking option `j` of question `i`: `{ ...answers, [i]: j }`. Every
        other question keeps its answer, or its lack of one. */
    method Select(i: nat, j: nat)
      requires Valid()
      modifies this
      ensures Valid()
      ensures answers == old(answers)[i := j]
      ensures forall k :: k != i ==> (k in answers <==> k in old(answers))
      ensures forall k :: k != i && k in answers ==> answers[k] == old(answers)[k]
      ensures submitted == old(submitted) && sent == old(sent)
      ensures fsExitCount == old(fsExitCount) && tabSwitchCount == old(tabSwitchCount)
      ensures autoSubmits == old(autoSubmits) && fsModal == old(fsModal)
    {
      answers := answers[i := j];
    }

    /** The modal's "Resume Exam in Fullscreen" button, which the page shows
        only while the modal is up and the session is not submitted: it
        hides the modal. Re-entering fullscreen is a browser effect; the
        `fullscreenchange` it raises finds a fullscreen element and changes
        nothing. */
    method ResumeClicked()
      requires Valid()
      requires fsModal && !submitted
      modifies this
      ensures Valid()
      ensures !fsModal
      ensures submitted == old(submitted) && sent == old(sent) && answers == old(answers)
      ensures fsExitCount == old(fsExitCount) && tabSwitchCount == old(tabSwitchCount)
      ensures autoSubmits == old(autoSubmits)
    {
      fsModal := false;
    }
  }
}
