/** The quiz helpers: drawing a question from the samples not yet asked,
    picking its correct answer, judging a reply, and the two persisted scores. */
module QuizUtils {
  import opened IdLists
  import opened Preferences

  const CurrentScoreKey: string := "current_score"
  const HighScoreKey: string := "high_score"

  /** How many answer buttons a question fills at most. */
  const NumAnswers: nat := 4

  /** The question drawn from an already shuffled list: its first
      `min(NumAnswers, |shuffled|)` identifiers, in display order. */
  function QuestionOf(shuffled: seq<int>): seq<int> {
    shuffled[..Min(NumAnswers, |shuffled|)]
  }

  /** Shuffles the caller's list in place, then collects its first (up to)
      four identifiers into a fresh list. */
  method GenerateQuestion(remaining: IdList) returns (answers: seq<int>)
    modifies remaining
    ensures multiset(remaining.items) == multiset(old(remaining.items))
    ensures answers == QuestionOf(remaining.items)
  {
    remaining.Shuffle();
    answers := [];
    for i := 0 to NumAnswers
      invariant answers == remaining.items[..Min(i, |remaining.items|)]
    {
      if i < |remaining.items| {
        answers := answers + [remaining.items[i]];
      }
    }
  }

  /** A question holds `min(4, n)` identifiers, each taken from the list it was
      drawn from, and as many of each as that list has at most. */
  lemma QuestionIsPrefixOfShuffle(shuffled: seq<int>)
    ensures |QuestionOf(shuffled)| == Min(NumAnswers, |shuffled|)
    ensures QuestionOf(shuffled) <= shuffled
    ensures multiset(QuestionOf(shuffled)) <= multiset(shuffled)
    ensures forall x :: x in QuestionOf(shuffled) ==> x in shuffled
  {
    var q := QuestionOf(shuffled);
    assert shuffled == q + shuffled[|q|..];
  }

  /** Drawn from a shuffle of a duplicate-free list, a question repeats no
      identifier, and every identifier in it is still remaining. */
  lemma QuestionOfShuffleIsDistinct(remaining: seq<int>, shuffled: seq<int>)
    requires multiset(shuffled) == multiset(remaining)
    requires Distinct(remaining)
    ensures Distinct(QuestionOf(shuffled))
    ensures forall x :: x in QuestionOf(shuffled) ==> x in remaining
  {
    PermutationKeepsDistinct(remaining, shuffled);
    forall x | x in QuestionOf(shuffled) ensures x in remaining {
      assert x in multiset(shuffled);
    }
  }

  /** The game-over guard `size < 2` on the question fires exactly when fewer
      than two samples remain. */
  lemma QuestionTooSmallIffFewRemaining(shuffled: seq<int>)
    ensures |QuestionOf(shuffled)| < 2 <==> |shuffled| < 2
    ensures |QuestionOf(shuffled)| == 0 <==> |shuffled| == 0
  {
  }

  /** Picks the correct answer uniformly from the question; `nextInt(0)` throws,
      so the question must not be empty. */
  method GetCorrectAnswerID(answers: seq<int>) returns (id: int)
    requires |answers| > 0
    ensures id in answers
  {
    var answerIndex :| 0 <= answerIndex < |answers|;
    id := answers[answerIndex];
  }

  function UserCorrect(correctAnswer: int, userAnswer: int): bool {
    userAnswer == correctAnswer
  }

  /** A reply is right exactly when it is the correct answer; which argument is
      which does not matter. */
  lemma UserCorrectIsEquality(correctAnswer: int, userAnswer: int)
    ensures UserCorrect(correctAnswer, userAnswer) <==> userAnswer == correctAnswer
    ensures UserCorrect(correctAnswer, userAnswer) == UserCorrect(userAnswer, correctAnswer)
  {
  }

  /** The persisted scores, read with default 0. */
  function HighScoreIn(entries: map<string, int>): int {
    Lookup(entries, HighScoreKey, 0)
  }

  function CurrentScoreIn(entries: map<string, int>): int {
    Lookup(entries, CurrentScoreKey, 0)
  }

  /** `getHighScore` and `getCurrentScore`: the same reads on the shared
      preference object. */
  function GetHighScore(prefs: SharedPreferences): int
    reads prefs
  {
    HighScoreIn(prefs.entries)
  }

  function GetCurrentScore(prefs: SharedPreferences): int
    reads prefs
  {
    CurrentScoreIn(prefs.entries)
  }

  method SetHighScore(prefs: SharedPreferences, highScore: int)
    modifies prefs
    ensures prefs.entries == old(prefs.entries)[HighScoreKey := highScore]
    ensures GetHighScore(prefs) == highScore
    ensures GetCurrentScore(prefs) == old(GetCurrentScore(prefs))
  {
    prefs.PutInt(HighScoreKey, highScore);
  }

  method SetCurrentScore(prefs: SharedPreferences, currentScore: int)
    modifies prefs
    ensures prefs.entries == old(prefs.entries)[CurrentScoreKey := currentScore]
    ensures GetCurrentScore(prefs) == currentScore
    ensures GetHighScore(prefs) == old(GetHighScore(prefs))
  {
    prefs.PutInt(CurrentScoreKey, currentScore);
  }

  /** Each score reads back what was last written to it. */
  lemma ScoreReadsBackWrite(entries: map<string, int>, value: int)
    ensures HighScoreIn(entries[HighScoreKey := value]) == value
    ensures CurrentScoreIn(entries[CurrentScoreKey := value]) == value
  {
  }

  /** A score never written reads as 0. */
  lemma UnsetScoreIsZero(entries: map<string, int>)
    ensures HighScoreKey !in entries ==> HighScoreIn(entries) == 0
    ensures CurrentScoreKey !in entries ==> CurrentScoreIn(entries) == 0
  {
  }

  /** The two keys differ, so writing one score leaves the other alone. */
  lemma ScoresAreIndependent(entries: map<string, int>, value: int)
    ensures HighScoreIn(entries[CurrentScoreKey := value]) == HighScoreIn(entries)
    ensures CurrentScoreIn(entries[HighScoreKey := value]) == CurrentScoreIn(entries)
  {
  }
}
