# Classical music quiz: the round state machine

The app plays a classical-music clip and the user picks its composer from up
to four names. This project models the game logic behind that screen:

- **Drawing a question.** The list of samples not yet asked is shuffled in
  place. The question is its first `min(4, n)` identifiers. One of them is
  picked at random as the correct answer.
- **Judging a reply.** The reply is compared with the answer. The two scores
  (current and high) are read from and written to the app's key-value
  preference store.
- **Round transitions.** Creating the quiz screen starts a new game or
  continues one. The game ends when the question has fewer than two choices.
  A click on an answer button disables the buttons, tints the answer green and
  the rest red, scores the reply, and removes the round's answer (not the
  clicked sample) from the remaining list. The next screen receives that list.

Modules, one per source file or platform collaborator:

- `IdLists` (`id_lists.dfy`): the mutable `ArrayList<Int>` of sample
  identifiers, as class `IdList`, with `Shuffle` and `Remove`. Also the
  functions that specify it (`IndexOf`, `LastIndexOf`, `RemoveFirst`,
  `Distinct`) and their lemmas.
- `Preferences` (`preferences.dfy`): the preference file as a class over a
  `map<string, int>`, read with a default value.
- `QuizUtils` (`quiz_utils.dfy`): `QuizUtils.kt`, meaning question
  generation, the answer draw, the verdict, and the score getters and setters
  on the keys `"current_score"` and `"high_score"`.
- `QuizActivity` (`quiz_activity.dfy`): `QuizActivity.kt`, as class
  `Activity` with the fields of one quiz screen and the methods `OnCreate`,
  `OnClick` and `ShowCorrectAnswer`. It also holds pure functions for the
  score update and for runs of rounds, with lemmas about whole games, and
  `PlayRound`, which runs one screen from creation to the hand-off to the
  next one.

Randomness is a nondeterministic choice. The shuffle may produce any
permutation, and the answer index may be any index of the question. The
catalog of all sample identifiers is given as a parameter. The remaining list
handed over by the previous screen is `Some(list)`, or `None` for a new game.
The four button view identifiers are constructor parameters.

The model follows the code where its behaviour differs from what one might expect of the game:

- The code treats the remaining samples as a list, not a set. Removal drops
  the first occurrence of the answer, and it is the shuffled order that gets
  handed on.
- The code draws the answer before it checks for game over. An empty
  remaining list therefore throws in the answer draw (`nextInt(0)`), and
  `OnCreate` reports this as `StartCrashed`. A one-element list draws its
  answer and then ends the game.
- After deciding the game is over, the code keeps going: `finish()` does not
  end `onCreate`, which goes on to set up the buttons. The model does the same.
- The high score is raised only on a right answer. So "high score is at least
  the current score" is preserved when it already held, but not restored
  otherwise (`HighScoreIsMaxAfterClick`).
- An out-of-range button lookup throws after the feedback was already shown.
  `OnClick` reports this as `ClickCrashed`.

## Model

| member | source | states |
|---|---|---|
| `QuizUtils.GenerateQuestion` | app/src/main/java/com/example/android/classicalmusicquiz/QuizUtils.kt:40-53 | the caller's list ends up as a permutation of its old contents (changed in place), and the result is the first `min(4, n)` elements of the shuffled list |
| `IdLists.IdList.Shuffle` | app/src/main/java/com/example/android/classicalmusicquiz/QuizUtils.kt:43 | the shuffle keeps the multiset of identifiers and the length; only the order changes |
| `QuizUtils.QuestionIsPrefixOfShuffle` | app/src/main/java/com/example/android/classicalmusicquiz/QuizUtils.kt:30-51 | the question has length `min(4, n)`, is a prefix of the shuffled list, and every identifier in it comes from that list |
| `QuizUtils.QuestionOfShuffleIsDistinct` | app/src/main/java/com/example/android/classicalmusicquiz/QuizUtils.kt:43-52 | a question drawn from a shuffle of a duplicate-free list has no duplicates, and each of its identifiers is still remaining |
| `QuizUtils.QuestionTooSmallIffFewRemaining` | app/src/main/java/com/example/android/classicalmusicquiz/QuizActivity.kt:85-98 | the question has fewer than two choices exactly when fewer than two samples remain, and it is empty exactly when none remain |
| `QuizUtils.GetCorrectAnswerID` | app/src/main/java/com/example/android/classicalmusicquiz/QuizUtils.kt:117-121 | needs a non-empty question (`nextInt(0)` throws) and returns one of its elements |
| `QuizUtils.UserCorrect` | app/src/main/java/com/example/android/classicalmusicquiz/QuizUtils.kt:130-132 | no contract of its own; `UserCorrectIsEquality` states that the verdict is true exactly when the reply equals the answer |
| `QuizUtils.GetHighScore` | app/src/main/java/com/example/android/classicalmusicquiz/QuizUtils.kt:61-66 | no contract of its own; the high score as stored, 0 when never written (see `ScoreReadsBackWrite`, `UnsetScoreIsZero`, and the ensures of `SetHighScore` and `SetCurrentScore`) |
| `QuizUtils.GetCurrentScore` | app/src/main/java/com/example/android/classicalmusicquiz/QuizUtils.kt:89-94 | no contract of its own; the current score as stored, 0 when never written (see `ScoreReadsBackWrite`, `UnsetScoreIsZero`, and the ensures of `SetCurrentScore` and `SetHighScore`) |
| `Preferences.SharedPreferences.GetInt` | app/src/main/java/com/example/android/classicalmusicquiz/QuizUtils.kt:65 | no contract of its own; the stored value or the default; `PutInt` ensures it reads back the value just written |
| `QuizUtils.UserCorrectIsEquality` | app/src/main/java/com/example/android/classicalmusicquiz/QuizUtils.kt:130-132 | the verdict is true exactly when the reply equals the answer, and swapping the arguments does not change it |
| `QuizUtils.SetHighScore` | app/src/main/java/com/example/android/classicalmusicquiz/QuizUtils.kt:74-81 | writes only the high-score key; the high score then reads back as written and the current score is unchanged |
| `QuizUtils.SetCurrentScore` | app/src/main/java/com/example/android/classicalmusicquiz/QuizUtils.kt:102-109 | writes only the current-score key; the current score then reads back as written and the high score is unchanged |
| `QuizUtils.ScoreReadsBackWrite` | app/src/main/java/com/example/android/classicalmusicquiz/QuizUtils.kt:61-108 | reading a score after writing it returns the value written |
| `QuizUtils.UnsetScoreIsZero` | app/src/main/java/com/example/android/classicalmusicquiz/QuizUtils.kt:61-94 | a score that was never written reads as 0 |
| `QuizUtils.ScoresAreIndependent` | app/src/main/java/com/example/android/classicalmusicquiz/QuizUtils.kt:27-28 | the two keys differ, so writing one score leaves the other unchanged |
| `Preferences.SharedPreferences.PutInt` | app/src/main/java/com/example/android/classicalmusicquiz/QuizUtils.kt:78-80 | the store changes only at the written key, which then reads back the written value |
| `IdLists.IdList.Remove` | app/src/main/java/com/example/android/classicalmusicquiz/QuizActivity.kt:297 | the list loses the first occurrence of the identifier, if there is one, and reports whether there was one |
| `IdLists.RemoveFirstDropsOne` | app/src/main/java/com/example/android/classicalmusicquiz/QuizActivity.kt:297 | the length drops by one exactly when the identifier was present, exactly one copy leaves the multiset, and an absent identifier leaves the list unchanged |
| `IdLists.RemoveFirstSplitsAtIndex` | app/src/main/java/com/example/android/classicalmusicquiz/QuizActivity.kt:297 | the removal cuts out the first occurrence, and all other elements keep their order |
| `IdLists.IndexOf` | app/src/main/java/com/example/android/classicalmusicquiz/QuizActivity.kt:297 | returns -1 exactly when the identifier is absent, and otherwise the index of its first occurrence |
| `IdLists.RemoveFirstKeepsDistinct` | app/src/main/java/com/example/android/classicalmusicquiz/QuizActivity.kt:296-297 | removing from a duplicate-free list leaves it duplicate-free and without the removed identifier, so that sample is never asked again |
| `IdLists.LastIndexOf` | app/src/main/java/com/example/android/classicalmusicquiz/QuizActivity.kt:276-281 | returns -1 exactly when the identifier is absent, and otherwise the last index holding it |
| `QuizActivity.FindButtonIndex` | app/src/main/java/com/example/android/classicalmusicquiz/QuizActivity.kt:275-281 | the scan over the button slots ends with the last slot whose view identifier matches the pressed one, or -1 |
| `QuizActivity.Activity.constructor` | app/src/main/java/com/example/android/classicalmusicquiz/QuizActivity.kt:51-61 | the screen starts with its four button identifiers and the shared store, and with the game not yet ended |
| `QuizActivity.Activity.OnCreate` | app/src/main/java/com/example/android/classicalmusicquiz/QuizActivity.kt:69-101 | a new game stores current score 0 and loads all identifiers; a continuing game uses the handed-over list and leaves the store unchanged; the fields take the stored scores; the question is the prefix of the shuffled list; an empty question throws in the answer draw; otherwise the answer is in the question, the game ends exactly when the question has fewer than two choices, and the question buttons are bound and enabled |
| `QuizActivity.Activity.ShowCorrectAnswer` | app/src/main/java/com/example/android/classicalmusicquiz/QuizActivity.kt:314-335 | every button with index below the question length is disabled and tinted green exactly when it shows the answer, red otherwise; the other slots are untouched |
| `QuizActivity.ExactlyOneGreenButton` | app/src/main/java/com/example/android/classicalmusicquiz/QuizActivity.kt:316-333 | with a duplicate-free question that contains the answer, exactly one button turns green: the one at the answer's position |
| `QuizActivity.Activity.OnClick` | app/src/main/java/com/example/android/classicalmusicquiz/QuizActivity.kt:267-297 | shows the feedback; the chosen sample is the question entry at the last matching button index, and an index that is -1 or past the question throws with the scores and list unchanged; otherwise the scores follow `ScoreAfterClick` and are written to the store, the round's answer is removed from the remaining list, and fields that mirrored the store still do |
| `QuizActivity.ScoreAfterClick` | app/src/main/java/com/example/android/classicalmusicquiz/QuizActivity.kt:286-294 | no contract of its own; `ScoreRisesByOneOrZero` and `HighScoreIsMaxAfterClick` state that a right answer adds one to the current score and lifts the high score to at least it, and a wrong one changes nothing |
| `QuizActivity.ScoreRisesByOneOrZero` | app/src/main/java/com/example/android/classicalmusicquiz/QuizActivity.kt:287-289 | the current score rises by exactly one when the chosen sample is the answer and is unchanged otherwise; the high score never decreases |
| `QuizActivity.HighScoreIsMaxAfterClick` | app/src/main/java/com/example/android/classicalmusicquiz/QuizActivity.kt:290-293 | after a right answer, or whenever the high score was at least the current score, the new high score is `max(old high, new current)`; "high is at least current" is preserved |
| `QuizActivity.HighScoreIsBestSeen` | app/src/main/java/com/example/android/classicalmusicquiz/QuizActivity.kt:286-294 | over any run of rounds starting from consistent scores, the high score never decreases, is at least every current score seen, and is either the starting high score or one of those scores; the current score gains at most one per round |
| `QuizActivity.RoundRetiresAnswer` | app/src/main/java/com/example/android/classicalmusicquiz/QuizActivity.kt:296-297 | with an answer drawn from the question of a shuffle, the remaining list shrinks by exactly one, loses exactly the answer from its multiset, and stays duplicate-free without the answer |
| `QuizActivity.GameAnswersAtMostAllButOne` | app/src/main/java/com/example/android/classicalmusicquiz/QuizActivity.kt:85-98 | each answered round shortens the remaining list by one, so a game over n samples answers at most n - 1 questions; duplicate-freedom is kept throughout |
| `QuizActivity.FiveSampleRound` | app/src/main/java/com/example/android/classicalmusicquiz/QuizActivity.kt:284-297 | five samples shuffled to [3, 1, 4, 2, 5] with answer 4 and reply 1: the question is [3, 1, 4, 2], the score stays the same, and 4 (not 1) leaves the list |
| `QuizActivity.TwoSampleRoundEndsGame` | app/src/main/java/com/example/android/classicalmusicquiz/QuizActivity.kt:95-98 | with two samples left, both are offered, and after the round the next question has fewer than two choices |
| `QuizActivity.PlayRound` | app/src/main/java/com/example/android/classicalmusicquiz/QuizActivity.kt:299-307 | over one screen's life: the stored high score never decreases, consistent stored scores stay consistent, the current score gains at most one, and store entries other than the two scores are unchanged; a list is handed on exactly when the question had at least two choices and the pressed button's index lies within it, and that list is one shorter, strictly smaller as a multiset, and duplicate-free if the start list was |

## Left out

- Audio playback: player setup, `prepare`, `stop`, `release` and the player-state callback. These belong to a third-party media library.
- The media session, the notification and the media-button receiver. These are platform glue.
- The one-second `Handler.postDelayed` timer and the `Intent` that opens the next screen. `PlayRound` models only the state that crosses over: the remaining list and the stored scores.
- The file I/O, `Context` and `apply()` behind the preference store. The store is a map that is updated synchronously.
- `endGame` (an `Intent` to the main screen) and `finish()`. They are modelled only as the flag `gameEnded`.
- The sample catalog. The list of all identifiers is a parameter. The per-sample lookups (composer names on the buttons, the answer's URI and the "sample not found" toast, the composer artwork) only feed views and playback.
- Toasts, view lookup, the white text colour and the colour-filter calls. The button tint is reduced to green, red or untouched.
- The main screen. It only shows the scores, with the best possible score `size - 1` (MainActivity.kt:32), which `GameAnswersAtMostAllButOne` bounds.
- Uniform distribution of the shuffle and of the answer draw. Only the set of possible outcomes is modelled.
- QuizActivity.Activity.OnClick: the Kotlin `Int` score is 32 bits wide and `mCurrentScore++` would wrap at 2^31 - 1. The model uses unbounded integers. The score cannot exceed the catalog size, so the wrap cannot happen in play.
- QuizActivity.Activity.OnClick: disabled buttons stop receiving clicks on the platform. The model does not require the pressed button to be enabled, so it also allows a second click on the same screen.
