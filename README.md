# Trivia quiz session engine, modelled in Dafny

This project models the quiz session engine of the trivia website: the React
component `TriviaGame` that plays one category of multiple-choice questions.
The session is seven state cells: the current question index, the selected
option, whether that option was correct, the score, whether the game is
complete, the seconds left on the countdown, and whether the game has left its
intro screen. Five events update them: start, option selection, advance to the
next question, restart, and the one-second countdown tick. On the result
screen, a rounded percentage picks one of four feedback messages.

Files:

- `types.dfy` (module `Types`): questions, categories, and what makes a category playable.
- `scoring.dfy` (module `Scoring`): `CorrectCount`, the number of correct answers in an answer history, with its lemmas.
- `grading.dfy` (module `Grading`): the rounded percentage and the message banding, as pure functions with lemmas.
- `session.dfy` (module `Session`): class `TriviaGame`, one field per state cell and one method per event.
- `play.dfy` (module `Play`): clients of the class. `PlayThrough` plays a category to the end. `Replay` applies any sequence of events.

The class invariant `Valid()` ties the score to a ghost field `answered`. That
field holds the answer recorded for each question already passed (`None`
when its countdown ran out). The invariant says the score is
`CorrectCount(questions, answered)` plus one when the current question's
selection is correct. So in every state the score is exactly the number of
questions answered correctly so far. It also keeps
the index on a question (the last one once the game is complete), the countdown within [0, 30], and `isCorrect` set
exactly when an option is selected, holding that option's correctness.

Timing is modelled as discrete events. Each one-second firing of the
countdown is a call to `Tick`. The 1.5 second delayed advance after an answer
is a call to `HandleNextQuestion`. Events are applied one at a time.

Behaviours of the code that the model keeps as written:

- The countdown keeps running after an answer is selected. The countdown effect re-arms when the selection changes, and only the expiry branch looks at the selection (TriviaGame.tsx:33-49).
- Nothing rejects a selection at 0 seconds or after completion. `HandleOptionSelect` checks only whether an option is already selected (TriviaGame.tsx:56).
- Starting is idempotent rather than refused when already started (TriviaGame.tsx:51-53).
- Restart does not return to the intro screen, because `gameStarted` is never reset (TriviaGame.tsx:81-88).
- An empty category is not rejected by the code. Here a non-empty category with valid correct-answer indices is a precondition of construction (types.ts:5).
- The percentage is `Math.round(score / n * 100)`. For a nonnegative value that rounds halves up, so it is computed exactly as `(200 * score + n) / (2 * n)`.

## Model

| member | source | states |
|---|---|---|
| Scoring.CorrectCountBounds | src/components/TriviaGame.tsx:59-64 | the points a history of answers earns lie between 0 and the number of answers, and are 0 for no answers |
| Scoring.CorrectCountSnoc | src/components/TriviaGame.tsx:59-64 | recording one more answer adds exactly one point when it is the correct option and none otherwise |
| Scoring.TimeoutScoresAsWrong | src/components/TriviaGame.tsx:36-45 | a question whose countdown ran out scores the same as one answered wrongly: no point |
| Scoring.CorrectCountIsCardinality | src/components/TriviaGame.tsx:59-64 | the score equals the number of questions whose recorded answer is their correct option |
| Scoring.AllCorrectScoresAll | src/components/TriviaGame.tsx:59-64 | answering every question correctly scores one point per question |
| Scoring.NoneCorrectScoresZero | src/components/TriviaGame.tsx:59-64 | answering no question correctly scores 0 |
| Grading.Percentage | src/components/TriviaGame.tsx:168 | the result is within one half of 100 * score / n, with halves rounding up as `Math.round` does |
| Grading.PercentageUnique | src/components/TriviaGame.tsx:168 | no other integer is within one half of the exact ratio in that sense, so the rounding is determined |
| Grading.PercentageInRange | src/components/TriviaGame.tsx:168 | for 0 <= score <= n the percentage lies in [0, 100], is 0 for no correct answers and 100 for all |
| Grading.PercentageMonotone | src/components/TriviaGame.tsx:168 | a higher score never yields a lower percentage |
| Grading.Band | src/components/TriviaGame.tsx:171-179 | 'Amazing' exactly for >= 90, 'Great job' for 70..89, 'Not bad' for 50..69, 'Keep learning' below 50; each threshold falls in the higher band |
| Grading.BandMonotone | src/components/TriviaGame.tsx:171-179 | a higher percentage never yields a lower tier |
| Grading.Grade | src/components/TriviaGame.tsx:168-179 | a perfect score always gets the top message and a zero score the bottom one |
| Grading.ReachesThreshold | src/components/TriviaGame.tsx:168-175 | the rounded percentage reaches a threshold T exactly when 200 * score >= (2T - 1) * n |
| Grading.GradeByRatio | src/components/TriviaGame.tsx:168-179 | the tier read from the exact ratio: top iff score/n >= 0.895, then 0.695 and 0.495 for the next two |
| Session.TriviaGame.constructor | src/components/TriviaGame.tsx:22-28 | a fresh session: question 0, no selection, no correctness, score 0, not complete, 30 seconds left, not started |
| Session.TriviaGame.CurrentQuestion | src/components/TriviaGame.tsx:30 | the shown question is the one at the current index, and its correct answer is one of its options |
| Session.TriviaGame.HandleStartGame | src/components/TriviaGame.tsx:51-53 | sets the game started and changes nothing else |
| Session.TriviaGame.HandleOptionSelect | src/components/TriviaGame.tsx:55-68 | with an option already selected nothing changes, so the first answer is binding; otherwise it records the option, sets `isCorrect` to whether it is the correct answer and raises the score by exactly 1 when it is; the index, countdown and completion are untouched |
| Session.TriviaGame.HandleNextQuestion | src/components/TriviaGame.tsx:70-79 | from the last question it completes the game and keeps the index, selection and countdown; otherwise it moves to the next index, clears the selection and correctness and resets the countdown to 30; the score is never touched |
| Session.TriviaGame.HandleRestart | src/components/TriviaGame.tsx:81-88 | back to question 0 with no selection, score 0, not complete and 30 seconds, while `gameStarted` keeps its value |
| Session.TriviaGame.Tick | src/components/TriviaGame.tsx:32-49 | a no-op unless started and not complete; above 1 second it counts down by exactly 1; at 1 second or less it sets 0 and advances only when nothing is selected; it never changes the score or the started flag |
| Session.TriviaGame.ScoreBounded | src/components/TriviaGame.tsx:55-79 | in every valid state the score is at most the index plus one when an option is selected, hence at most the number of questions |
| Session.TriviaGame.ResultPercentage | src/components/TriviaGame.tsx:168 | the percentage shown on the result screen lies in [0, 100] |
| Session.TriviaGame.ResultTier | src/components/TriviaGame.tsx:168-179 | the message of a session with every answer right is the top one; with none right, the bottom one |
| Play.PlayThrough | src/components/TriviaGame.tsx:32-88 | playing a category from start to finish, answering or letting the countdown expire on each question, ends complete on the last question; the answers the session recorded, question by question, are exactly the plan, so every question was visited once and in order; the score counts exactly the correct answers, in [0, n] |
| Play.PlayQuestion | src/components/TriviaGame.tsx:55-79 | clicking an option (then one countdown tick and the delayed advance) or letting the countdown expire records that answer for the current question and moves on, or completes the game on the last question |
| Play.RunOutTheClock | src/components/TriviaGame.tsx:32-49 | after fewer than 30 ticks an unanswered question is still shown, not complete, with 30 minus the ticks seconds left; the 30th tick advances it with a fresh 30-second countdown, or completes the game when it was the last |
| Play.Replay | src/components/TriviaGame.tsx:22-88 | for every sequence of events, the index stays on a question (the last one when the game is complete), the selection is a valid option, the countdown stays in [0, 30] and the score stays within the questions answered |

## Left out

- Rendering: the JSX screens, animation properties, button styling and disabling, and the A/B/C letter labels (TriviaGame.tsx:90-374). Selections are limited to option indices of the current question, as the buttons are generated from the options.
- The texts of the four result messages. The banding is modelled by the tier names `Amazing`, `GreatJob`, `NotBad` and `KeepLearning`.
- Real timers and React scheduling. This covers `setInterval`/`clearInterval`, the 1000 ms and 1500 ms delays, and the effect re-subscription. A pending delayed advance is never cancelled in the code; here it is just a call to `HandleNextQuestion` whenever it fires.
- Stale closures. Each event reads the current state, not the state of the render that armed the timer.
- Session.TriviaGame.Tick: on expiry the code calls the advance from inside the countdown state updater. The model applies the updater's 0 first and then the advance, so an advanced question starts with 30 seconds. How React orders a state update issued inside another update's updater is not part of this model.
- Floating-point arithmetic: the percentage is computed exactly with integers, in place of `Math.round` over a floating-point quotient.
- The quiz result record (`QuizResult`, types.ts:16-22) and its persistence, authentication, profile pages, routing and navigation. These are calls into a hosted backend or presentation code.
- The static question content: categories are parameters of the model.
