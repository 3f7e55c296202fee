# Quiz session model

A model of the quiz-session state machine in `quiz.js`, a browser quiz widget.
The widget draws up to 50 questions from a question bank. It shows them one at
a time and grades multi-select answers: a question is complete once every
correct key is picked, and a point is awarded only if no wrong key was picked
before. A countdown of 200 minutes runs alongside. At the end the result page
reports the count of correct answers and a pass at 80 percent or more.

The project has four modules:

- `Grading` (grading.dfy) holds the completion test of a multi-select question
  (quiz.js:92-97). It also proves exactly when that test amounts to "the picked
  keys are the correct keys".
- `Sampling` (sampling.dfy) holds `selectRandomQuestions`: the in-place shuffle
  of the bank and the prefix of the shuffled bank (quiz.js:33-36). The random
  comparator is replaced by a permutation that the caller supplies.
- `Quiz` (quiz.dfy) holds the session state as a value. It has one step
  function per event: start, show a question, pick an answer, Next, one timer
  pulse. It also holds the pass test of `endQuiz` and the lemmas about whole
  runs of events.
- `Session` (session.dfy) holds the class `QuizSession`. Its fields are the
  module globals of quiz.js:13-19, and each method updates them in place as
  the matching handler does. Every method's postcondition ties the new fields,
  and what the handler shows, to the step function of `Quiz` on the old
  fields.

The model follows the code where it departs from the behaviour the quiz is
meant to have:

- Nothing locks a question once it is complete. Picking one of its correct keys
  again re-runs the completion branch and awards the point again
  (`Quiz.RepickAfterCompletionScoresAgain`). So correctCount can exceed the
  number of questions (`Quiz.CorrectCountCanExceedTotal`).
- The completion test compares the number of picked keys with the length of
  the list of correct keys. It is set equality only for a question that lists
  no key twice (`Grading.CompleteIff`). A question that lists a key twice can
  never be completed.
- An empty bank is not rejected. `startQuiz` then shows a question that does
  not exist and fails, so `Start` requires a non-empty bank.

The source has no flag for a finished quiz. The result page replaces the answer
buttons and the Next button, whether Next (quiz.js:129) or the timer
(quiz.js:141) leads to it. The model captures this with `Quiz.Running`: a
question is on screen and time is left. `SelectAnswer` and `Next` require it,
and `Quiz.TimeoutStopsPlay` shows that the timeout pulse is exactly the pulse
that ends it.

## Model

| member | source | states |
|---|---|---|
| Grading.IsComplete | quiz.js:92-97 | when the completion test holds, the question lists no correct key twice and the picked set is exactly the set of its correct keys |
| Grading.CompleteIff | quiz.js:92-97 | the completion test holds iff the question's correct keys are pairwise distinct and the picked set is exactly the set of those keys |
| Grading.ElemsCard | quiz.js:93 | a list of keys has at most as many distinct keys as entries, and exactly as many iff no key repeats |
| Sampling.ShufflePreservesMultiset | quiz.js:34 | the shuffled bank is a permutation of the bank: same questions, same multiplicities |
| Sampling.Sample | quiz.js:33-35 | the first min(n, bank size) entries of the shuffled bank: entry i is the bank entry at position perm[i] |
| Sampling.SampleWithoutReplacement | quiz.js:33-35 | the sample has min(n, bank size) questions, entry i is the bank entry at position perm[i], and its multiset is contained in the bank's |
| Sampling.SelectRandomQuestions | quiz.js:33-36 | shuffles the bank array in place in the order of the permutation and returns the first numQuestions entries of the shuffled bank |
| Quiz.Entered | quiz.js:64-65 | showing a question clears the picked keys and the wrong-pick flag and changes nothing else |
| Quiz.Initial | quiz.js:12-19 | the globals as the page loads: no questions and so no question on screen, counters and index 0, timeLeft 12000, nothing picked, no wrong pick; the invariant holds |
| Quiz.Restarted | quiz.js:40-45 | the reset of startQuiz over a drawn sample: counters and index 0, timeLeft 12000, nothing picked, no wrong pick, the invariant holds, and the quiz runs when the sample is non-empty |
| Quiz.Started | quiz.js:38-48 | after a start: the sample of min(50, bank size) questions drawn without replacement, score, correctCount and index 0, timeLeft 12000, nothing picked, no wrong pick, the invariant holds; on a non-empty bank the first question is on screen and the quiz runs |
| Quiz.Graded | quiz.js:81-116 | a wrong key only sets the wrong-pick flag; a correct key is added and nothing else is; the picked keys stay among the correct keys; score and correctCount move together by 0 or 1; the session invariant is kept |
| Quiz.GradingRules | quiz.js:82-107 | a pick scores iff it is correct, completes the question and no wrong key came before; it shows the explanation iff it is correct and completes the question; before completion, picking an already picked key changes nothing |
| Quiz.Picks | quiz.js:81-116 | a run of picks on one question gives one outcome per pick, keeps the question, index and time, moves score and correctCount together, never down and by at most one per pick, and keeps the invariant |
| Quiz.FlaggedNeverScores | quiz.js:99-102 | once a wrong key has been picked for a question, no later pick on it changes score or correctCount |
| Quiz.CorrectPicks | quiz.js:82-102 | picking fresh correct keys adds exactly those keys; a point is awarded iff the last of them brings the picked set to the number of correct keys with no wrong pick before |
| Quiz.CorrectPicksShow | quiz.js:92-107 | in such a run every pick shows Correct except that the last shows the explanation iff it completes the question |
| Quiz.AllCorrectScoresOnce | quiz.js:81-116 | picking each correct key of a question once, in any order, completes it on the last pick only and earns exactly one point |
| Quiz.WrongFirstForfeits | quiz.js:99-111 | a wrong pick first, then every correct key: the question completes and shows the explanation, but score and correctCount do not change |
| Quiz.RepickAfterCompletionScoresAgain | quiz.js:92-102 | picking a correct key of a completed question again, with no wrong pick, awards the point again and shows the explanation again |
| Quiz.CorrectCountCanExceedTotal | quiz.js:92-102 | on a one-question sample, picking its only correct key twice leaves correctCount 2 for 1 question on the result page, which reports a pass |
| Quiz.Advanced | quiz.js:124-131 | Next moves the index on by exactly one and keeps the counters; below the end it shows the next question with nothing picked and no wrong pick, otherwise it shows the result page; the invariant is kept |
| Quiz.PercentageTest | quiz.js:148-149 | for a positive total, a percentage of at least 80 is exactly 5 * correctCount >= 4 * total |
| Quiz.Passed | quiz.js:147-149 | for a non-empty sample, a pass iff the exact percentage correctCount / total * 100 is at least 80; no pass without a correct answer |
| Quiz.EndQuiz | quiz.js:146-149 | the result page reports correctCount out of the full sample size and a pass iff the percentage is at least 80 |
| Quiz.Minutes | quiz.js:136 | Math.floor(t / 60): the m with m * 60 <= t < m * 60 + 60 |
| Quiz.Seconds | quiz.js:137 | JavaScript's t % 60: strictly between -60 and 60, differing from t by a multiple of 60, with the sign of t |
| Quiz.ClockSplit | quiz.js:136-137 | for t >= 0 the display shows whole minutes and 0-59 seconds with minutes * 60 + seconds == t; for t < 0 the minutes are negative and the seconds in -59..0 |
| Quiz.Ticked | quiz.js:134-143 | a pulse takes exactly one second off and changes nothing else; the result page comes iff the time left after it is at most 0, and is then endQuiz's page for the new state; the display splits the remaining time exactly; the invariant is kept |
| Quiz.TimeoutStopsPlay | quiz.js:139-141 | during a running quiz, a pulse shows the result page iff the quiz stops running after it, which happens at exactly 0 seconds left |
| Quiz.TicksCount | quiz.js:134-135 | n pulses take exactly n seconds off and change nothing else |
| Quiz.TimesOutAfterAllowance | quiz.js:133-143 | after a start, the n-th pulse ends the quiz iff n >= 12000 |
| Quiz.PerfectRun | quiz.js:81-149 | on two questions, picking each one's correct keys once and pressing Next ends with 2 of 2 and a pass |
| Quiz.SlippedRun | quiz.js:81-149 | with one wrong pick first on the first question, the same session ends with 1 of 2 and a fail |
| Session.QuizSession.constructor | quiz.js:12-19 | the fields start as the globals do: no questions, index, score and correctCount 0, timeLeft 12000, nothing picked, no wrong pick |
| Session.QuizSession.Start | quiz.js:38-58 | shuffles the bank array in place and sets the fields to the started state over the sample, with the invariant holding and the quiz running |
| Session.QuizSession.EnterQuestion | quiz.js:60-66 | the fields become Quiz.Entered of the old fields, and the invariant holds afterwards |
| Session.QuizSession.SelectAnswer | quiz.js:81-116 | the new fields and the shown outcome are Quiz.Graded of the old fields and the key, while the quiz runs; the invariant is kept |
| Session.QuizSession.Next | quiz.js:124-131 | the new fields and what is shown next are Quiz.Advanced of the old fields, while the quiz runs; the invariant is kept |
| Session.QuizSession.Tick | quiz.js:134-143 | the new fields and the displayed time and result page are Quiz.Ticked of the old fields; the invariant is kept |

## Left out

- Page elements and sound: looking up elements, building buttons, CSS classes, text and HTML output, the explanation container and the audio playback (quiz.js:1-10, 61-63, 66-78, 86-89, 104-106, 110-114, 118-122, 151-163) are presentation only. The model keeps what they show as values: the outcome of a pick, the next question or result page, and the displayed minutes and seconds. On the pulse that ends the quiz, endQuiz blanks the timer display (quiz.js:159), so that pulse's minutes and seconds are never seen.
- Loading the bank: the `fetch` of the JSON file and its parsing in `loadQuestions` (quiz.js:22-30) are network I/O. The bank is passed to `Start` as an array. The `allQuestions` global is that array and is not a field.
- Randomness: the comparator `0.5 - Math.random()` (quiz.js:34) is random and not a consistent comparator, so the order it produces is not defined. The model takes that order as a permutation of the bank's positions, supplied by the caller.
- Timer scheduling: `setInterval` and `clearInterval` (quiz.js:134, 140) are not modelled; `Tick` is the callback body, called explicitly. The model therefore does not capture that a finish through Next leaves the interval running (quiz.js:129), or that each restart adds another interval (quiz.js:57). A `Tick` after the result page is allowed, as the interval left running after a finish through Next allows it. After a timeout the interval is cleared, but the model still accepts a `Tick`; it takes a second off and shows the result page again. Pulses before the first start are accepted as well, from the state of the page as it loads, although the source starts the interval only in startQuiz (quiz.js:57).
- The Next button's enabled state (quiz.js:53, 66, 106) is not modelled. `Session.QuizSession.Next` only requires a running quiz; it does not require the question to be complete.
- Float formatting: `toFixed(2)` (quiz.js:154) is display only. The floating-point percentage (quiz.js:148) is replaced by an exact test. `Quiz.Passed` also gives the result of a division by zero (NaN fails, Infinity passes), which a non-empty sample never reaches.
