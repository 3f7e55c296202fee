/** The quiz session as values: the state held in the module globals of
    quiz.js, and one function per event that moves it (start, show a question,
    pick an answer, go to the next question, one timer pulse). The class in
    session.dfy performs these steps in place. */
module Quiz {
  import opened Grading
  import opened Sampling

  /** Questions drawn per session (quiz.js:48). */
  const SampleSize: nat := 50

  /** Time allowed per session in seconds: 200 minutes (quiz.js:17, 43). */
  const TotalTime: int := 200 * 60

  datatype Option<T> = None | Some(value: T)

  /** One bank entry: the prompt, the option text per key, the keys that are
      correct (a list, so a key may be listed twice) and the explanation shown
      once the question is complete. */
  datatype Question = Question(
    question: string,
    answers: map<Key, string>,
    correctAnswer: seq<Key>,
    explanation: string)

  /** The module globals of quiz.js apart from the bank. */
  datatype SessionState = SessionState(
    questions: seq<Question>,
    currentQuestionIndex: nat,
    score: nat,
    correctCount: nat,
    timeLeft: int,
    selectedAnswers: set<Key>,
    questionAnsweredIncorrectly: bool)

  /** What an answer pick shows: a correct key that does not yet complete the
      question, a completing correct key (the explanation is displayed and the
      Next button enabled), or a wrong key. */
  datatype Outcome = Correct | Completed(explanation: string) | Incorrect

  /** The result page of endQuiz. */
  datatype Summary = Summary(correctCount: nat, totalQuestions: nat, passed: bool)

  /** What nextQuestion leads to: the next question on screen, or the result page. */
  datatype Signal = ShowQuestion(question: Question) | QuizOver(summary: Summary)

  /** What one timer pulse shows: the remaining time, and the result page when
      the time is up. */
  datatype TickReport = TickReport(minutes: int, seconds: int, ended: Option<Summary>)

  /** A new state together with what the step showed. */
  datatype Step<R> = Step(state: SessionState, result: R)

  /** The globals as the page loads (quiz.js:13-19): no questions yet, so no
      question is on screen. */
  function Initial(): (r: SessionState)
    ensures Inv(r) && !Running(r)
    ensures r.questions == [] && r.currentQuestionIndex == 0
    ensures r.score == 0 && r.correctCount == 0 && r.timeLeft == TotalTime
    ensures r.selectedAnswers == {} && !r.questionAnsweredIncorrectly
  {
    SessionState([], 0, 0, 0, TotalTime, {}, false)
  }

  /** The invariant every step keeps: the index stays within the sample (it
      reaches the end only after the last question), score and correctCount
      agree, the time never exceeds the allowance, and the picked keys of the
      question on screen are among its correct keys. */
  predicate Inv(s: SessionState)
  {
    && s.currentQuestionIndex <= |s.questions|
    && s.score == s.correctCount
    && s.timeLeft <= TotalTime
    && (s.currentQuestionIndex < |s.questions| ==>
          s.selectedAnswers <= Elems(s.questions[s.currentQuestionIndex].correctAnswer))
  }

  /** The quiz is running: a question is on screen and time is left. The
      answer buttons and the Next button exist only then; the result page,
      whether reached by Next or by the timer, replaces them. */
  predicate Running(s: SessionState)
  {
    s.currentQuestionIndex < |s.questions| && s.timeLeft > 0
  }

  /** The correct keys of the question on screen. */
  function CurrentCorrect(s: SessionState): seq<Key>
    requires s.currentQuestionIndex < |s.questions|
  {
    s.questions[s.currentQuestionIndex].correctAnswer
  }

  /** showQuestion's reset: a newly shown question starts with no keys picked
      and no wrong pick. */
  function Entered(s: SessionState): (r: SessionState)
    ensures r.selectedAnswers == {} && !r.questionAnsweredIncorrectly
    ensures r.(selectedAnswers := s.selectedAnswers,
               questionAnsweredIncorrectly := s.questionAnsweredIncorrectly) == s
  {
    s.(selectedAnswers := {}, questionAnsweredIncorrectly := false)
  }

  /** startQuiz on an already drawn sample: every counter reset, the full time
      allowance, the first question shown. */
  function Restarted(sample: seq<Question>): (r: SessionState)
    ensures Inv(r) && r.questions == sample && r.currentQuestionIndex == 0
    ensures r.score == 0 && r.correctCount == 0 && r.timeLeft == TotalTime
    ensures r.selectedAnswers == {} && !r.questionAnsweredIncorrectly
    ensures sample != [] ==> Running(r)
  {
    Entered(SessionState(sample, 0, 0, 0, TotalTime, {}, false))
  }

  /** startQuiz on a bank shuffled by `perm`: a fresh session over
      min(50, |bank|) questions drawn without replacement from the bank, with
      both counters and the index at zero, the full time allowance, no key
      picked and no wrong pick. On a non-empty bank the first question is on
      screen and the quiz runs. */
  function Started(bank: seq<Question>, perm: seq<nat>): (s: SessionState)
    requires IsPermutation(perm, |bank|)
    ensures Inv(s) && s.questions == Sample(bank, perm, SampleSize)
    ensures |s.questions| == Min(SampleSize, |bank|)
    ensures multiset(s.questions) <= multiset(bank)
    ensures s.currentQuestionIndex == 0 && s.score == 0 && s.correctCount == 0
    ensures s.timeLeft == TotalTime
    ensures s.selectedAnswers == {} && !s.questionAnsweredIncorrectly
    ensures |bank| > 0 ==> Running(s)
  {
    SampleWithoutReplacement(bank, perm, SampleSize);
    Restarted(Sample(bank, perm, SampleSize))
  }

  /** handleAnswerSelection for a pick of `key` on the question on screen. A
      correct key is added to the picked set; the completion test then awards a
      point unless a wrong key was picked before. A wrong key only marks the
      question as answered wrongly. Nothing locks a completed question. */
  function Graded(s: SessionState, key: Key): (r: Step<Outcome>)
    requires s.currentQuestionIndex < |s.questions|
    // only the picked set, the wrong-pick flag and the two counters change
    ensures r.state.(selectedAnswers := s.selectedAnswers,
                     questionAnsweredIncorrectly := s.questionAnsweredIncorrectly,
                     score := s.score, correctCount := s.correctCount) == s
    // a wrong key sets the flag and changes nothing else
    ensures key !in CurrentCorrect(s) ==>
              r.state == s.(questionAnsweredIncorrectly := true) && r.result == Incorrect
    // a correct key is added, and nothing else is
    ensures key in CurrentCorrect(s) ==>
              r.state.selectedAnswers == s.selectedAnswers + {key}
              && r.state.questionAnsweredIncorrectly == s.questionAnsweredIncorrectly
    // the picked keys stay among the correct keys
    ensures s.selectedAnswers <= Elems(CurrentCorrect(s)) ==>
              r.state.selectedAnswers <= Elems(CurrentCorrect(s))
    // score and correctCount move together, by at most one
    ensures r.state.score - s.score == r.state.correctCount - s.correctCount
    ensures r.state.score == s.score || r.state.score == s.score + 1
    ensures Inv(s) ==> Inv(r.state)
  {
    var q := s.questions[s.currentQuestionIndex];
    if key in q.correctAnswer then
      var selected := s.selectedAnswers + {key};
      if IsComplete(selected, q.correctAnswer) then
        var gain := if s.questionAnsweredIncorrectly then 0 else 1;
        Step(s.(selectedAnswers := selected,
                score := s.score + gain,
                correctCount := s.correctCount + gain),
             Completed(q.explanation))
      else
        Step(s.(selectedAnswers := selected), Correct)
    else
      Step(s.(questionAnsweredIncorrectly := true), Incorrect)
  }

  /** When a pick scores and when it completes the question: a point is
      awarded exactly for a correct pick after which the completion test holds,
      with no wrong pick before; the explanation is shown exactly when the
      completion test holds after a correct pick; and before completion, picking
      an already picked correct key again changes nothing. */
  lemma GradingRules(s: SessionState, key: Key)
    requires s.currentQuestionIndex < |s.questions|
    ensures var r := Graded(s, key);
            && (r.state.score == s.score + 1 <==>
                  key in CurrentCorrect(s) && !s.questionAnsweredIncorrectly
                  && IsComplete(r.state.selectedAnswers, CurrentCorrect(s)))
            && (r.result.Completed? <==>
                  key in CurrentCorrect(s) && IsComplete(r.state.selectedAnswers, CurrentCorrect(s)))
            && (r.result.Completed? ==>
                  r.result.explanation == s.questions[s.currentQuestionIndex].explanation)
            && (r.result == Correct <==>
                  key in CurrentCorrect(s) && !IsComplete(r.state.selectedAnswers, CurrentCorrect(s)))
            && (key in s.selectedAnswers && key in CurrentCorrect(s)
                && !IsComplete(s.selectedAnswers, CurrentCorrect(s)) ==>
                  r.state == s && r.result == Correct)
  {
    assert key in s.selectedAnswers ==> s.selectedAnswers + {key} == s.selectedAnswers;
  }

  /** For a positive total, a percentage of at least 80 is the integer test
      5 * correctCount >= 4 * totalQuestions. */
  lemma PercentageTest(correctCount: nat, totalQuestions: nat)
    ensures totalQuestions > 0 ==>
              (5 * correctCount >= 4 * totalQuestions
               <==> (correctCount as real / totalQuestions as real) * 100.0 >= 80.0)
  {
    if totalQuestions == 0 { return; }
    var c, t := correctCount as real, totalQuestions as real;
    var p := (c / t) * 100.0;
    assert p * t == c * 100.0;
    if 5 * correctCount >= 4 * totalQuestions {
      assert c * 100.0 >= 80.0 * t;
      assert p >= 80.0;
    } else {
      assert c * 100.0 < 80.0 * t;
      assert p < 80.0;
    }
  }

  /** endQuiz's pass test: a percentage of at least 80. The source computes
      correctCount / totalQuestions * 100 in floating point; for a non-empty
      sample this is the integer test 5 * correctCount >= 4 * totalQuestions. An
      empty sample divides by zero: 0 / 0 is NaN, which fails the test, and a
      positive count over zero is Infinity, which passes it. */
  function Passed(correctCount: nat, totalQuestions: nat): (passed: bool)
    ensures totalQuestions > 0 ==>
              (passed <==> (correctCount as real / totalQuestions as real) * 100.0 >= 80.0)
    ensures passed ==> correctCount > 0
  {
    PercentageTest(correctCount, totalQuestions);
    if totalQuestions == 0 then correctCount > 0
    else 5 * correctCount >= 4 * totalQuestions
  }

  /** endQuiz: the result page, over the whole sample (not only the questions
      reached). */
  function EndQuiz(s: SessionState): (r: Summary)
    ensures r.correctCount == s.correctCount && r.totalQuestions == |s.questions|
    ensures |s.questions| > 0 ==>
              (r.passed <==> (s.correctCount as real / |s.questions| as real) * 100.0 >= 80.0)
  {
    Summary(s.correctCount, |s.questions|, Passed(s.correctCount, |s.questions|))
  }

  /** nextQuestion: move the index on by one; show the next question (with its
      reset) if there is one, otherwise show the result page and leave the rest
      of the state as it is. */
  function Advanced(s: SessionState): (r: Step<Signal>)
    requires s.currentQuestionIndex < |s.questions|
    ensures r.state.currentQuestionIndex == s.currentQuestionIndex + 1
    ensures r.state.questions == s.questions && r.state.timeLeft == s.timeLeft
    ensures r.state.score == s.score && r.state.correctCount == s.correctCount
    ensures r.state.currentQuestionIndex < |s.questions| ==>
              && r.state.selectedAnswers == {} && !r.state.questionAnsweredIncorrectly
              && r.result == ShowQuestion(s.questions[r.state.currentQuestionIndex])
    ensures r.state.currentQuestionIndex == |s.questions| ==>
              && r.state.selectedAnswers == s.selectedAnswers
              && r.state.questionAnsweredIncorrectly == s.questionAnsweredIncorrectly
              && r.result == QuizOver(EndQuiz(s))
    ensures Inv(s) ==> Inv(r.state)
  {
    var s' := s.(currentQuestionIndex := s.currentQuestionIndex + 1);
    if s'.currentQuestionIndex < |s'.questions| then
      Step(Entered(s'), ShowQuestion(s'.questions[s'.currentQuestionIndex]))
    else
      Step(s', QuizOver(EndQuiz(s')))
  }

  /** The minutes shown for `t` seconds left: Math.floor(t / 60). */
  function Minutes(t: int): (m: int)
    ensures m * 60 <= t < m * 60 + 60
  {
    t / 60  // Dafny's division by a positive divisor rounds down, as Math.floor does
  }

  /** The seconds shown for `t` seconds left: JavaScript's t % 60, whose
      remainder takes the sign of t. */
  function Seconds(t: int): (sec: int)
    ensures -60 < sec < 60 && (t - sec) % 60 == 0
    ensures t >= 0 ==> sec >= 0
    ensures t <= 0 ==> sec <= 0
  {
    if t >= 0 then t % 60 else -((-t) % 60)
  }

  /** The display splits a non-negative time exactly into whole minutes and
      0-59 seconds; a negative time shows a negative minute count and
      non-positive seconds. */
  lemma ClockSplit(t: int)
    ensures t >= 0 ==> Minutes(t) * 60 + Seconds(t) == t && 0 <= Seconds(t) < 60
    ensures t >= 0 ==> 0 <= Minutes(t) && Minutes(t) * 60 <= t
    ensures t < 0 ==> Minutes(t) < 0 && -60 < Seconds(t) <= 0
  {
  }

  /** One timer pulse: one second less; the remaining time is shown, and the
      result page too once no time is left. */
  function Ticked(s: SessionState): (r: Step<TickReport>)
    ensures r.state == s.(timeLeft := s.timeLeft - 1)
    ensures r.result.ended.Some? <==> s.timeLeft <= 1
    ensures r.result.ended.Some? ==> r.result.ended.value == EndQuiz(r.state)
    ensures r.result.ended.Some? ==> r.result.ended.value.totalQuestions == |s.questions|
    ensures s.timeLeft >= 1 ==>
              r.result.minutes * 60 + r.result.seconds == s.timeLeft - 1
              && 0 <= r.result.seconds < 60
    ensures Inv(s) ==> Inv(r.state)
  {
    var s' := s.(timeLeft := s.timeLeft - 1);
    ClockSplit(s'.timeLeft);
    Step(s', TickReport(Minutes(s'.timeLeft), Seconds(s'.timeLeft),
                        if s'.timeLeft <= 0 then Some(EndQuiz(s')) else None))
  }

  /** A run of picks on the question on screen, with what each pick showed. */
  function Picks(s: SessionState, keys: seq<Key>): (r: Step<seq<Outcome>>)
    requires s.currentQuestionIndex < |s.questions|
    ensures |r.result| == |keys|
    ensures r.state.questions == s.questions
    ensures r.state.currentQuestionIndex == s.currentQuestionIndex
    ensures r.state.timeLeft == s.timeLeft
    ensures r.state.score - s.score == r.state.correctCount - s.correctCount
    ensures s.score <= r.state.score <= s.score + |keys|
    ensures Inv(s) ==> Inv(r.state)
    decreases |keys|
  {
    if keys == [] then Step(s, [])
    else
      var first := Graded(s, keys[0]);
      var rest := Picks(first.state, keys[1..]);
      Step(rest.state, [first.result] + rest.result)
  }

  /** Once a wrong key has been picked for a question, no later pick on it
      changes score or correctCount, and the question stays marked. */
  lemma {:induction false} FlaggedNeverScores(s: SessionState, keys: seq<Key>)
    requires s.currentQuestionIndex < |s.questions|
    requires s.questionAnsweredIncorrectly
    ensures Picks(s, keys).state.score == s.score
    ensures Picks(s, keys).state.correctCount == s.correctCount
    ensures Picks(s, keys).state.questionAnsweredIncorrectly
    decreases |keys|
  {
    if keys != [] {
      FlaggedNeverScores(Graded(s, keys[0]).state, keys[1..]);
    }
  }

  /** Dropping the head of a sequence without repeats leaves one without
      repeats that does not contain the head. */
  lemma ElemsTail(keys: seq<Key>)
    requires keys != [] && |Elems(keys)| == |keys|
    ensures |Elems(keys[1..])| == |keys| - 1 && keys[0] !in Elems(keys[1..])
    ensures Elems(keys) == {keys[0]} + Elems(keys[1..])
  {
    var rest := keys[1..];
    assert keys == [keys[0]] + rest;
    assert Elems(keys) == {keys[0]} + Elems(rest);
    ElemsCard(rest);
  }

  /** `keys` are correct keys of the question on screen, none picked yet and
      none listed twice, and no more of them than there are correct keys left
      to pick. */
  predicate FreshCorrectKeys(s: SessionState, keys: seq<Key>)
  {
    && s.currentQuestionIndex < |s.questions|
    && s.selectedAnswers <= Elems(CurrentCorrect(s))
    && |Elems(keys)| == |keys| && Elems(keys) <= Elems(CurrentCorrect(s))
    && Elems(keys) !! s.selectedAnswers
    && |s.selectedAnswers| + |keys| <= |CurrentCorrect(s)|
  }

  /** Moving one key from the keys still to pick to the picked set keeps the
      two disjoint and within the correct keys. */
  lemma FreshStep(picked: set<Key>, correct: set<Key>, toPick: set<Key>, rest: set<Key>, k: Key)
    requires picked <= correct && toPick <= correct && toPick !! picked
    requires toPick == {k} + rest && k !in rest
    ensures picked + {k} <= correct && rest <= correct && rest !! picked + {k}
    ensures (picked + {k}) + rest == picked + toPick
    ensures |picked + {k}| == |picked| + 1
  {
  }

  /** The first pick of a run of fresh correct keys adds that key to the
      picked set, and the rest of the run is still fresh. */
  lemma PickHeadKeepsFresh(s: SessionState, keys: seq<Key>)
    requires FreshCorrectKeys(s, keys) && keys != []
    ensures var s1 := Graded(s, keys[0]).state;
            && FreshCorrectKeys(s1, keys[1..])
            && CurrentCorrect(s1) == CurrentCorrect(s)
            && s1.selectedAnswers + Elems(keys[1..]) == s.selectedAnswers + Elems(keys)
            && s1.questionAnsweredIncorrectly == s.questionAnsweredIncorrectly
  {
    var k, rest := keys[0], keys[1..];
    ElemsTail(keys);
    var s1 := Graded(s, k).state;
    FreshStep(s.selectedAnswers, Elems(CurrentCorrect(s)), Elems(keys), Elems(rest), k);
    assert s1.selectedAnswers == s.selectedAnswers + {k};
  }

  /** The first pick of a run of fresh correct keys completes the question
      exactly when it brings the picked set up to the number of correct keys,
      and scores then unless a wrong key came before; otherwise it shows
      Correct. */
  lemma PickHeadGrading(s: SessionState, keys: seq<Key>)
    requires FreshCorrectKeys(s, keys) && keys != []
    ensures var first := Graded(s, keys[0]);
            var done := |s.selectedAnswers| + 1 == |CurrentCorrect(s)|;
            var gain := if done && !s.questionAnsweredIncorrectly then 1 else 0;
            && |first.state.selectedAnswers| == |s.selectedAnswers| + 1
            && first.result == (if done then Completed(s.questions[s.currentQuestionIndex].explanation) else Correct)
            && first.state.score == s.score + gain
            && first.state.correctCount == s.correctCount + gain
  {
    var k := keys[0];
    var c := CurrentCorrect(s);
    assert k in Elems(keys);
    GradingRules(s, k);
    var sel := s.selectedAnswers + {k};
    assert Graded(s, k).state.selectedAnswers == sel;
    assert |sel| == |s.selectedAnswers| + 1;
    assert sel <= Elems(c);
    assert IsComplete(sel, c) <==> |s.selectedAnswers| + 1 == |c|;
  }

  /** Picking fresh correct keys, each once: they are added to the picked set,
      and a point is awarded exactly when the last of them brings the picked
      set up to the number of correct keys with no wrong key picked before. */
  lemma {:induction false} CorrectPicks(s: SessionState, keys: seq<Key>)
    requires FreshCorrectKeys(s, keys)
    ensures var r := Picks(s, keys);
            var done := 0 < |keys| && |s.selectedAnswers| + |keys| == |CurrentCorrect(s)|;
            var gain := if done && !s.questionAnsweredIncorrectly then 1 else 0;
            && r.state.selectedAnswers == s.selectedAnswers + Elems(keys)
            && r.state.questionAnsweredIncorrectly == s.questionAnsweredIncorrectly
            && r.state.score == s.score + gain
            && r.state.correctCount == s.correctCount + gain
    decreases |keys|
  {
    if keys != [] {
      PickHeadKeepsFresh(s, keys);
      PickHeadGrading(s, keys);
      var s1 := Graded(s, keys[0]).state;
      CorrectPicks(s1, keys[1..]);
      assert Picks(s, keys).state == Picks(s1, keys[1..]).state;
    }
  }

  /** What the picks of CorrectPicks show: every pick but the last shows
      Correct, and the last shows the explanation exactly when it brings the
      picked set up to the number of correct keys. */
  lemma {:induction false} CorrectPicksShow(s: SessionState, keys: seq<Key>)
    requires FreshCorrectKeys(s, keys)
    ensures forall i :: 0 <= i < |keys| ==>
              Picks(s, keys).result[i] ==
                (if i == |keys| - 1 && |s.selectedAnswers| + |keys| == |CurrentCorrect(s)|
                 then Completed(s.questions[s.currentQuestionIndex].explanation) else Correct)
    decreases |keys|
  {
    if keys != [] {
      PickHeadKeepsFresh(s, keys);
      PickHeadGrading(s, keys);
      var first := Graded(s, keys[0]);
      var rest := keys[1..];
      var tail := Picks(first.state, rest);
      CorrectPicksShow(first.state, rest);
      assert |first.state.selectedAnswers| + |rest| == |s.selectedAnswers| + |keys|;
      assert first.state.questions == s.questions;
      var done := |s.selectedAnswers| + |keys| == |CurrentCorrect(s)|;
      var explanation := s.questions[s.currentQuestionIndex].explanation;
      var outcomes := [first.result] + tail.result;
      assert Picks(s, keys).result == outcomes;
      forall i | 0 <= i < |keys|
        ensures outcomes[i] == (if i == |keys| - 1 && done then Completed(explanation) else Correct)
      {
        if i > 0 {
          assert outcomes[i] == tail.result[i - 1];
        } else if |keys| > 1 {
          assert |s.selectedAnswers| + 1 < |CurrentCorrect(s)|;
        }
      }
    }
  }

  /** A question with distinct correct keys, picked in any order with each
      correct key once and no wrong key, completes on the last pick only and
      earns exactly one point. */
  lemma AllCorrectScoresOnce(s: SessionState, keys: seq<Key>)
    requires s.currentQuestionIndex < |s.questions|
    requires s.selectedAnswers == {} && !s.questionAnsweredIncorrectly
    requires CurrentCorrect(s) != [] && Distinct(CurrentCorrect(s))
    requires Distinct(keys) && Elems(keys) == Elems(CurrentCorrect(s))
    ensures var r := Picks(s, keys);
            && r.state.score == s.score + 1 && r.state.correctCount == s.correctCount + 1
            && IsComplete(r.state.selectedAnswers, CurrentCorrect(s))
            && (forall i :: 0 <= i < |keys| - 1 ==> r.result[i] == Correct)
            && r.result[|keys| - 1].Completed?
  {
    ElemsCard(keys);
    ElemsCard(CurrentCorrect(s));
    CorrectPicks(s, keys);
    CorrectPicksShow(s, keys);
    CompleteIff(Picks(s, keys).state.selectedAnswers, CurrentCorrect(s));
  }

  /** A wrong key picked first forfeits the point: picking every correct key
      afterwards still completes the question and shows the explanation, but
      score and correctCount stay as they were. */
  lemma WrongFirstForfeits(s: SessionState, wrong: Key, keys: seq<Key>)
    requires s.currentQuestionIndex < |s.questions|
    requires s.selectedAnswers == {}
    requires wrong !in CurrentCorrect(s)
    requires CurrentCorrect(s) != [] && Distinct(CurrentCorrect(s))
    requires Distinct(keys) && Elems(keys) == Elems(CurrentCorrect(s))
    ensures var r := Picks(s, [wrong] + keys);
            && r.state.score == s.score && r.state.correctCount == s.correctCount
            && IsComplete(r.state.selectedAnswers, CurrentCorrect(s))
            && r.result[0] == Incorrect
            && r.result[|keys|].Completed?
  {
    var s1 := Graded(s, wrong).state;
    assert ([wrong] + keys)[1..] == keys;
    ElemsCard(keys);
    ElemsCard(CurrentCorrect(s));
    CorrectPicks(s1, keys);
    CorrectPicksShow(s1, keys);
    CompleteIff(Picks(s1, keys).state.selectedAnswers, CurrentCorrect(s));
  }

  /** Nothing locks a completed question: picking one of its correct keys
      again re-runs the completion branch and, if no wrong key was picked,
      awards the point again. */
  lemma RepickAfterCompletionScoresAgain(s: SessionState, key: Key)
    requires s.currentQuestionIndex < |s.questions|
    requires IsComplete(s.selectedAnswers, CurrentCorrect(s))
    requires key in s.selectedAnswers && !s.questionAnsweredIncorrectly
    ensures Graded(s, key).state == s.(score := s.score + 1, correctCount := s.correctCount + 1)
    ensures Graded(s, key).result.Completed?
  {
    GradingRules(s, key);
    assert s.selectedAnswers + {key} == s.selectedAnswers;
  }

  /** So correctCount can exceed the number of questions: on a one-question
      sample, picking its only correct key twice counts two correct answers,
      and the result page then reports a pass at 200 percent. */
  lemma CorrectCountCanExceedTotal()
    ensures var q := Question("q", map["a" := "yes", "b" := "no"], ["a"], "e");
            var s := Graded(Graded(Restarted([q]), "a").state, "a").state;
            && s.correctCount == 2 > |s.questions|
            && EndQuiz(Advanced(s).state).correctCount == 2
            && EndQuiz(Advanced(s).state).totalQuestions == 1
            && EndQuiz(Advanced(s).state).passed
  {
    var q := Question("q", map["a" := "yes", "b" := "no"], ["a"], "e");
    var s0 := Restarted([q]);
    var s1 := Graded(s0, "a").state;
    assert |s1.selectedAnswers| == 1 && IsComplete(s1.selectedAnswers, ["a"]);
    RepickAfterCompletionScoresAgain(s1, "a");
  }

  /** A pulse during a running quiz shows the result page exactly when it
      stops the quiz from running: the timeout takes the answer and Next
      buttons away, and no earlier pulse does. */
  lemma TimeoutStopsPlay(s: SessionState)
    requires Running(s)
    ensures Ticked(s).result.ended.Some? <==> !Running(Ticked(s).state)
    ensures Ticked(s).result.ended.Some? ==> Ticked(s).state.timeLeft == 0
  {
  }

  /** The state after `n` timer pulses. */
  function AfterTicks(s: SessionState, n: nat): SessionState
    decreases n
  {
    if n == 0 then s else AfterTicks(Ticked(s).state, n - 1)
  }

  /** Each pulse takes exactly one second off and changes nothing else. */
  lemma {:induction false} TicksCount(s: SessionState, n: nat)
    ensures AfterTicks(s, n) == s.(timeLeft := s.timeLeft - n)
    decreases n
  {
    if n > 0 {
      TicksCount(Ticked(s).state, n - 1);
    }
  }

  /** The n-th pulse after a start ends the quiz exactly when it is pulse
      number 12000 (200 minutes) or later. */
  lemma TimesOutAfterAllowance(bank: seq<Question>, perm: seq<nat>, n: nat)
    requires IsPermutation(perm, |bank|)
    requires n > 0
    ensures Ticked(AfterTicks(Started(bank, perm), n - 1)).result.ended.Some? <==> n >= TotalTime
  {
    TicksCount(Started(bank, perm), n - 1);
  }

  /** The keys `keys` pick each correct key of `q` exactly once, in some
      order, and `q` lists each of them once. */
  predicate PicksAllOnce(q: Question, keys: seq<Key>)
  {
    q.correctAnswer != [] && Distinct(q.correctAnswer) && Distinct(keys)
    && Elems(keys) == Elems(q.correctAnswer)
  }

  /** A session on a sample of two questions, each answered by picking its
      correct keys once and then Next, ends on the result page with 2 of 2
      and a pass. */
  lemma PerfectRun(q1: Question, q2: Question, keys1: seq<Key>, keys2: seq<Key>)
    requires PicksAllOnce(q1, keys1) && PicksAllOnce(q2, keys2)
    ensures var s1 := Advanced(Picks(Restarted([q1, q2]), keys1).state).state;
            Advanced(Picks(s1, keys2).state).result == QuizOver(Summary(2, 2, true))
  {
    var s0 := Restarted([q1, q2]);
    AllCorrectScoresOnce(s0, keys1);
    var s1 := Advanced(Picks(s0, keys1).state).state;
    AllCorrectScoresOnce(s1, keys2);
  }

  /** The same session with one wrong key picked first on the first question
      ends with 1 of 2, 50 percent, and a fail. */
  lemma SlippedRun(q1: Question, q2: Question, wrong: Key, keys1: seq<Key>, keys2: seq<Key>)
    requires PicksAllOnce(q1, keys1) && PicksAllOnce(q2, keys2)
    requires wrong !in q1.correctAnswer
    ensures var s1 := Advanced(Picks(Restarted([q1, q2]), [wrong] + keys1).state).state;
            Advanced(Picks(s1, keys2).state).result == QuizOver(Summary(1, 2, false))
  {
    var s0 := Restarted([q1, q2]);
    WrongFirstForfeits(s0, wrong, keys1);
    var s1 := Advanced(Picks(s0, [wrong] + keys1).state).state;
    AllCorrectScoresOnce(s1, keys2);
  }
}
