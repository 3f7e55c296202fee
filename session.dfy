/** The quiz session as quiz.js runs it: the module globals are the fields of
    one object, and each event handler updates them in place. Every method is
    tied to the step function of module Quiz that it performs. */
module Session {
  import opened Grading
  import opened Sampling
  import opened Quiz

  class QuizSession {
    var questions: seq<Question>
    var currentQuestionIndex: nat
    var score: nat
    var correctCount: nat
    var timeLeft: int
    var selectedAnswers: set<Key>
    var questionAnsweredIncorrectly: bool

    /** The fields as one value. */
    function State(): SessionState
      reads this
    {
      SessionState(questions, currentQuestionIndex, score, correctCount, timeLeft,
                   selectedAnswers, questionAnsweredIncorrectly)
    }

    ghost predicate Valid()
      reads this
    {
      Inv(State())
    }

    /** The globals as the page loads. */
    constructor ()
      ensures State() == Initial() && Valid()
    {
      questions := [];
      currentQuestionIndex := 0;
      score := 0;
      correctCount := 0;
      timeLeft := TotalTime;
      selectedAnswers := {};
      questionAnsweredIncorrectly := false;
    }

    /** startQuiz: reset every counter and the clock, draw the sample from the
        bank (shuffling the bank in place) and show the first question. The
        source fails on an empty bank, when it shows a question that does not
        exist. */
    method Start(allQuestions: array<Question>, perm: seq<nat>)
      requires allQuestions.Length > 0
      requires IsPermutation(perm, allQuestions.Length)
      modifies this, allQuestions
      ensures allQuestions[..] == Shuffled(old(allQuestions[..]), perm)
      ensures State() == Started(old(allQuestions[..]), perm)
      ensures Valid() && Running(State())
    {
      score := 0;
      correctCount := 0;
      currentQuestionIndex := 0;
      timeLeft := TotalTime;
      questionAnsweredIncorrectly := false;
      selectedAnswers := {};
      questions := SelectRandomQuestions(allQuestions, SampleSize, perm);
      EnterQuestion();
    }

    /** showQuestion's reset of the per-question state. */
    method EnterQuestion()
      requires currentQuestionIndex < |questions|
      requires score == correctCount && timeLeft <= TotalTime
      modifies this`selectedAnswers, this`questionAnsweredIncorrectly
      ensures State() == Entered(old(State()))
      ensures Valid()
    {
      selectedAnswers := {};
      questionAnsweredIncorrectly := false;
    }

    /** handleAnswerSelection on the question on screen; its buttons exist
        only while the quiz runs. */
    method SelectAnswer(key: Key) returns (outcome: Outcome)
      requires Valid() && Running(State())
      modifies this`selectedAnswers, this`questionAnsweredIncorrectly, this`score, this`correctCount
      ensures Step(State(), outcome) == Graded(old(State()), key)
      ensures Valid()
    {
      var questionObj := questions[currentQuestionIndex];
      var isCorrect := key in questionObj.correctAnswer;
      if isCorrect {
        selectedAnswers := selectedAnswers + {key};
        if |selectedAnswers| == |questionObj.correctAnswer|
           && (forall answer | answer in selectedAnswers :: answer in questionObj.correctAnswer)
        {
          if !questionAnsweredIncorrectly {
            score := score + 1;
            correctCount := correctCount + 1;
          }
          outcome := Completed(questionObj.explanation);
        } else {
          outcome := Correct;
        }
      } else {
        questionAnsweredIncorrectly := true;
        outcome := Incorrect;
      }
    }

    /** nextQuestion, bound to the Next button, which exists only while the
        quiz runs. */
    method Next() returns (signal: Signal)
      requires Valid() && Running(State())
      modifies this`currentQuestionIndex, this`selectedAnswers, this`questionAnsweredIncorrectly
      ensures Step(State(), signal) == Advanced(old(State()))
      ensures Valid()
    {
      currentQuestionIndex := currentQuestionIndex + 1;
      if currentQuestionIndex < |questions| {
        EnterQuestion();
        signal := ShowQuestion(questions[currentQuestionIndex]);
      } else {
        signal := QuizOver(EndQuiz(State()));
      }
    }

    /** The body of the timer callback, run once per second. */
    method Tick() returns (report: TickReport)
      requires Valid()
      modifies this`timeLeft
      ensures Step(State(), report) == Ticked(old(State()))
      ensures Valid()
    {
      timeLeft := timeLeft - 1;
      var minutes := Minutes(timeLeft);
      var seconds := Seconds(timeLeft);
      if timeLeft <= 0 {
        report := TickReport(minutes, seconds, Some(EndQuiz(State())));
      } else {
        report := TickReport(minutes, seconds, None);
      }
    }
  }
}
