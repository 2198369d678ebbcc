/** The quiz screen: one activity instance per question. Creating it starts or
    continues a game and draws a question; a click on an answer button shows the
    verdict, updates the scores and retires the answer; the remaining list is
    then handed to the next instance. */
module QuizActivity {
  import opened IdLists
  import opened Preferences
  import opened QuizUtils

  datatype Option<T> = None | Some(value: T)

  /** Background tint of an answer button: untouched, green (the correct
      answer) or red. */
  datatype Tint = Untinted | Green | Red

  /** One slot of the button array: `Unbound` where the question has no
      answer for it (a null entry), otherwise the button's state. */
  datatype ButtonView = Unbound | Bound(enabled: bool, tint: Tint)

  /** How creating the screen ends: the answer draw threw on an empty
      question, the game was ended (fewer than two choices), or a question is
      on screen. */
  datatype StartOutcome = StartCrashed | GameEnded | QuestionShown

  /** How a click ends: the pressed button had no answer behind it (an
      out-of-range list access), or the user's choice and its verdict. */
  datatype ClickOutcome = ClickCrashed | Answered(chosen: int, correct: bool)

  function Max(a: int, b: int): int { if a >= b then a else b }

  // ---------------------------------------------------------------------
  // Feedback marking
  // ---------------------------------------------------------------------

  /** The tint the feedback gives the button showing `buttonSampleId`. */
  function MarkFor(buttonSampleId: int, answer: int): Tint {
    if buttonSampleId == answer then Green else Red
  }

  /** Indices of the question buttons the feedback tints green. */
  function GreenButtons(question: seq<int>, answer: int): set<int> {
    set i | 0 <= i < |question| && MarkFor(question[i], answer) == Green
  }

  /** With a duplicate-free question that contains the answer, exactly one
      button turns green: the one at the answer's position. */
  lemma ExactlyOneGreenButton(question: seq<int>, answer: int)
    requires Distinct(question)
    requires answer in question
    ensures GreenButtons(question, answer) == {IndexOf(question, answer)}
    ensures |GreenButtons(question, answer)| == 1
  {
    var k := IndexOf(question, answer);
    forall i | i in GreenButtons(question, answer) ensures i == k {
      assert question[i] == answer == question[k];
    }
    assert k in GreenButtons(question, answer);
  }

  // ---------------------------------------------------------------------
  // Button lookup
  // ---------------------------------------------------------------------

  /** The loop over the button slots that records every slot whose view
      identifier matches the pressed one; it ends with the last match, or -1. */
  method FindButtonIndex(buttonIds: seq<int>, pressedId: int) returns (index: int)
    ensures index == LastIndexOf(buttonIds, pressedId)
  {
    index := -1;
    for i := 0 to |buttonIds|
      invariant index == LastIndexOf(buttonIds[..i], pressedId)
    {
      assert buttonIds[..i + 1][..i] == buttonIds[..i];
      if pressedId == buttonIds[i] {
        index := i;
      }
    }
    assert buttonIds[..|buttonIds|] == buttonIds;
  }

  // ---------------------------------------------------------------------
  // Scores across rounds
  // ---------------------------------------------------------------------

  datatype Scores = Scores(current: int, high: int)

  /** The score update of a click whose correct answer is `answer` and whose
      chosen sample is `chosen`: a right answer adds one to the current score,
      and the high score follows it only when it is beaten. */
  function ScoreAfterClick(s: Scores, answer: int, chosen: int): Scores {
    if UserCorrect(answer, chosen) then
      var current := s.current + 1;
      Scores(current, if current > s.high then current else s.high)
    else
      s
  }

  /** The current score goes up by exactly one on a right answer and stays
      put otherwise; the high score never goes down. */
  lemma ScoreRisesByOneOrZero(s: Scores, answer: int, chosen: int)
    ensures ScoreAfterClick(s, answer, chosen).current
         == if chosen == answer then s.current + 1 else s.current
    ensures ScoreAfterClick(s, answer, chosen).high >= s.high
    ensures chosen != answer ==> ScoreAfterClick(s, answer, chosen) == s
  {
  }

  /** After a right answer, or whenever the high score was not below the
      current one, the new high score is the larger of the old high score and
      the new current score, and it is not below the new current score. */
  lemma HighScoreIsMaxAfterClick(s: Scores, answer: int, chosen: int)
    ensures chosen == answer || s.current <= s.high ==>
      ScoreAfterClick(s, answer, chosen).high
        == Max(s.high, ScoreAfterClick(s, answer, chosen).current)
    ensures s.current <= s.high ==>
      ScoreAfterClick(s, answer, chosen).current <= ScoreAfterClick(s, answer, chosen).high
  {
  }

  datatype Click = Click(answer: int, chosen: int)

  /** The scores after a sequence of clicks, one per round. */
  function PlayScores(s: Scores, clicks: seq<Click>): Scores
    decreases |clicks|
  {
    if |clicks| == 0 then s
    else
      var last := clicks[|clicks| - 1];
      ScoreAfterClick(PlayScores(s, clicks[..|clicks| - 1]), last.answer, last.chosen)
  }

  /** Over any run of rounds starting from consistent scores, the high score
      never decreases, is at least every current score seen along the way, and
      is either the starting high score or one of those current scores; the
      current score gains at most one per round. */
  lemma {:induction false} HighScoreIsBestSeen(s: Scores, clicks: seq<Click>)
    requires s.current <= s.high
    ensures s.high <= PlayScores(s, clicks).high
    ensures PlayScores(s, clicks).current <= PlayScores(s, clicks).high
    ensures PlayScores(s, clicks).current <= s.current + |clicks|
    ensures forall k :: 0 <= k <= |clicks| ==>
      PlayScores(s, clicks[..k]).current <= PlayScores(s, clicks).high
    ensures PlayScores(s, clicks).high == s.high
         || exists k :: 0 < k <= |clicks| && PlayScores(s, clicks[..k]).current == PlayScores(s, clicks).high
  {
    if |clicks| == 0 {
      assert clicks[..0] == clicks;
    } else {
      var n := |clicks|;
      var init := clicks[..n - 1];
      var last := clicks[n - 1];
      HighScoreIsBestSeen(s, init);
      var before := PlayScores(s, init);
      var after := PlayScores(s, clicks);
      assert after == ScoreAfterClick(before, last.answer, last.chosen);
      assert clicks[..n] == clicks;
      forall k | 0 <= k <= n ensures PlayScores(s, clicks[..k]).current <= after.high {
        if k < n {
          assert clicks[..k] == init[..k];
        }
      }
      if after.high != before.high {
        assert PlayScores(s, clicks[..n]).current == after.high;
      } else if before.high != s.high {
        var k :| 0 < k <= n - 1 && PlayScores(s, init[..k]).current == before.high;
        assert clicks[..k] == init[..k];
      }
    }
  }

  // ---------------------------------------------------------------------
  // The remaining list across rounds
  // ---------------------------------------------------------------------

  /** A round's removal of its answer from the shuffled remaining list: the
      list loses exactly that one identifier and, when it was duplicate-free,
      stays duplicate-free and no longer holds the answer. */
  lemma RoundRetiresAnswer(remaining: seq<int>, shuffled: seq<int>, answer: int)
    requires multiset(shuffled) == multiset(remaining)
    requires answer in QuestionOf(shuffled)
    ensures |RemoveFirst(shuffled, answer)| == |remaining| - 1
    ensures multiset(RemoveFirst(shuffled, answer)) == multiset(remaining) - multiset{answer}
    ensures Distinct(remaining) ==>
      Distinct(RemoveFirst(shuffled, answer)) && answer !in RemoveFirst(shuffled, answer)
  {
    QuestionIsPrefixOfShuffle(shuffled);
    RemoveFirstDropsOne(shuffled, answer);
    assert |shuffled| == |multiset(shuffled)| == |multiset(remaining)| == |remaining|;
    if Distinct(remaining) {
      PermutationKeepsDistinct(remaining, shuffled);
      RemoveFirstKeepsDistinct(shuffled, answer);
    }
  }

  /** One round as the random source decides it: the order the shuffle left
      the remaining list in, and the answer drawn from the question. */
  datatype Draw = Draw(shuffled: seq<int>, answer: int)

  /** The remaining list after a run of answered rounds, or `None` as soon as
      a round is not one a screen can show and have answered: its shuffle is
      not a permutation of the list, its question has fewer than two choices
      (the game is over), or its answer is not in its question. */
  function PlayRemaining(remaining: seq<int>, draws: seq<Draw>): Option<seq<int>>
    decreases |draws|
  {
    if |draws| == 0 then Some(remaining)
    else
      var d := draws[0];
      if multiset(d.shuffled) == multiset(remaining)
         && 2 <= |QuestionOf(d.shuffled)|
         && d.answer in QuestionOf(d.shuffled)
      then PlayRemaining(RemoveFirst(d.shuffled, d.answer), draws[1..])
      else None
  }

  /** Every answered round retires one sample, and the last answered round
      still leaves one behind: a game over n samples answers at most n - 1
      questions, so that is the best possible score. A duplicate-free list
      stays duplicate-free throughout. */
  lemma {:induction false} GameAnswersAtMostAllButOne(remaining: seq<int>, draws: seq<Draw>)
    requires PlayRemaining(remaining, draws).Some?
    ensures |PlayRemaining(remaining, draws).value| + |draws| == |remaining|
    ensures 0 < |draws| ==> |draws| <= |remaining| - 1
    ensures Distinct(remaining) ==> Distinct(PlayRemaining(remaining, draws).value)
    decreases |draws|
  {
    if |draws| > 0 {
      var d := draws[0];
      var next := RemoveFirst(d.shuffled, d.answer);
      RoundRetiresAnswer(remaining, d.shuffled, d.answer);
      GameAnswersAtMostAllButOne(next, draws[1..]);
      assert |d.shuffled| == |multiset(d.shuffled)| == |multiset(remaining)| == |remaining|;
    }
  }

  /** Five samples, shuffled to [3, 1, 4, 2, 5], answer 4, user picks 1: the
      score stays, and 4 (not 1) leaves the list. */
  lemma FiveSampleRound(high: int)
    ensures QuestionOf([3, 1, 4, 2, 5]) == [3, 1, 4, 2]
    ensures ScoreAfterClick(Scores(0, high), 4, 1) == Scores(0, high)
    ensures RemoveFirst([3, 1, 4, 2, 5], 4) == [3, 1, 2, 5]
  {
  }

  /** Two samples left: both are offered; after the round only one remains,
      so the next question would have fewer than two choices. */
  lemma TwoSampleRoundEndsGame(answer: int)
    requires answer in [2, 1]
    ensures QuestionOf([2, 1]) == [2, 1]
    ensures |QuestionOf(RemoveFirst([2, 1], answer))| < 2
  {
  }

  // ---------------------------------------------------------------------
  // The activity
  // ---------------------------------------------------------------------

  /** Stored scores that make sense: not negative, high at least current. */
  ghost predicate ScoresConsistent(entries: map<string, int>) {
    0 <= CurrentScoreIn(entries) <= HighScoreIn(entries)
  }

  /** Every stored entry other than the two scores is the same in both maps. */
  ghost predicate OtherEntriesKept(before: map<string, int>, after: map<string, int>) {
    forall k :: k != CurrentScoreKey && k != HighScoreKey ==>
      && (k in after <==> k in before)
      && (k in after ==> after[k] == before[k])
  }

  /** Keeping the other entries from one map to the next, and from that one to
      a third, keeps them from the first to the third. */
  lemma OtherEntriesKeptChains(a: map<string, int>, b: map<string, int>, c: map<string, int>)
    requires OtherEntriesKept(a, b) && OtherEntriesKept(b, c)
    ensures OtherEntriesKept(a, c)
  {
  }

  class Activity {
    /** View identifiers of the four answer buttons. */
    const buttonIds: seq<int>
    const prefs: SharedPreferences
    var remaining: IdList
    var question: seq<int>
    var answer: int
    var currentScore: int
    var highScore: int
    var buttons: array<ButtonView>
    /** Whether the game-over hand-off to the main screen was started. */
    var gameEnded: bool

    /** What creating the screen establishes when it does not throw. */
    ghost predicate Valid()
      reads this, buttons
    {
      && |buttonIds| == NumAnswers
      && buttons.Length == |buttonIds|
      && 0 < |question| <= buttons.Length
      && answer in question
      && forall i :: 0 <= i < |question| ==> buttons[i].Bound?
    }

    /** The score fields mirror the stored scores. */
    ghost predicate InSync()
      reads this, prefs
    {
      currentScore == CurrentScoreIn(prefs.entries) && highScore == HighScoreIn(prefs.entries)
    }

    constructor (buttonA: int, buttonB: int, buttonC: int, buttonD: int, prefs: SharedPreferences)
      ensures buttonIds == [buttonA, buttonB, buttonC, buttonD]
      ensures this.prefs == prefs
      ensures !gameEnded
    {
      buttonIds := [buttonA, buttonB, buttonC, buttonD];
      this.prefs := prefs;
      remaining := new IdList([]);
      question := [];
      answer, currentScore, highScore := 0, 0, 0;
      buttons := new ButtonView[NumAnswers](_ => Unbound);
      gameEnded := false;
    }

    /** Starts a new game (no remaining list was handed over: the stored
        current score becomes 0 and every sample is remaining) or continues one
        with the handed-over list; reads the stored scores; draws the question,
        then its answer, and only then ends the game when the question has
        fewer than two choices. */
    method OnCreate(savedRemaining: Option<seq<int>>, allSampleIds: seq<int>) returns (outcome: StartOutcome)
      requires |buttonIds| == NumAnswers
      modifies this, prefs
      ensures savedRemaining.None? ==>
        prefs.entries == old(prefs.entries)[CurrentScoreKey := 0] && currentScore == 0
      ensures savedRemaining.Some? ==> prefs.entries == old(prefs.entries)
      ensures InSync()
      ensures fresh(remaining)
      ensures multiset(remaining.items)
           == multiset(if savedRemaining.Some? then savedRemaining.value else allSampleIds)
      ensures question == QuestionOf(remaining.items)
      ensures outcome == StartCrashed <==> |question| == 0
      ensures outcome == GameEnded <==> |question| == 1
      ensures outcome == StartCrashed ==>
        answer == old(answer) && buttons == old(buttons) && gameEnded == old(gameEnded)
      ensures outcome != StartCrashed ==>
        && Valid()
        && fresh(buttons)
        && (gameEnded <==> old(gameEnded) || |question| < 2)
        && forall i :: 0 <= i < buttons.Length ==>
             buttons[i] == if i < |question| then Bound(true, Untinted) else Unbound
    {
      var isNewGame := savedRemaining.None?;
      if isNewGame {
        SetCurrentScore(prefs, 0);
        remaining := new IdList(allSampleIds);
      } else {
        remaining := new IdList(savedRemaining.value);
      }
      currentScore := GetCurrentScore(prefs);
      highScore := GetHighScore(prefs);
      question := GenerateQuestion(remaining);
      if |question| == 0 {
        // The answer draw `nextInt(0)` throws before the game-over guard runs.
        outcome := StartCrashed;
        return;
      }
      answer := GetCorrectAnswerID(question);
      if |question| < 2 {
        gameEnded := true;
      }
      var q := question;
      buttons := new ButtonView[|buttonIds|](i => if i < |q| then Bound(true, Untinted) else Unbound);
      outcome := if |question| < 2 then GameEnded else QuestionShown;
    }

    /** Disables every question button and tints the answer's button green and
        every other question button red. */
    method ShowCorrectAnswer()
      requires Valid()
      modifies buttons
      ensures forall i :: 0 <= i < |question| ==> buttons[i] == Bound(false, MarkFor(question[i], answer))
      ensures forall i :: |question| <= i < buttons.Length ==> buttons[i] == old(buttons[i])
    {
      for i := 0 to |question|
        invariant forall j :: 0 <= j < i ==> buttons[j] == Bound(false, MarkFor(question[j], answer))
        invariant forall j :: i <= j < buttons.Length ==> buttons[j] == old(buttons[j])
      {
        var buttonSampleId := question[i];
        if buttonSampleId == answer {
          buttons[i] := Bound(false, Green);
        } else {
          buttons[i] := Bound(false, Red);
        }
      }
    }

    /** Shows the feedback, maps the pressed button to the sample it shows,
        scores the reply (a right one adds one to the current score and raises
        the high score when beaten, both written through to the store) and
        removes the round's ANSWER, not the chosen sample, from the remaining
        list. */
    method OnClick(pressedId: int) returns (outcome: ClickOutcome)
      requires Valid()
      modifies this, buttons, prefs, remaining
      ensures Valid()
      ensures buttons == old(buttons) && remaining == old(remaining)
      ensures question == old(question) && answer == old(answer) && gameEnded == old(gameEnded)
      ensures forall i :: 0 <= i < |question| ==> buttons[i] == Bound(false, MarkFor(question[i], answer))
      ensures forall i :: |question| <= i < buttons.Length ==> buttons[i] == old(buttons[i])
      ensures outcome == ClickCrashed <==> !(0 <= LastIndexOf(buttonIds, pressedId) < |question|)
      ensures outcome == ClickCrashed ==>
        && currentScore == old(currentScore) && highScore == old(highScore)
        && prefs.entries == old(prefs.entries) && remaining.items == old(remaining.items)
      ensures outcome.Answered? ==>
        && outcome.chosen == question[LastIndexOf(buttonIds, pressedId)]
        && (outcome.correct <==> outcome.chosen == answer)
        && Scores(currentScore, highScore)
           == ScoreAfterClick(Scores(old(currentScore), old(highScore)), answer, outcome.chosen)
        && remaining.items == RemoveFirst(old(remaining.items), answer)
        && prefs.entries
           == if !outcome.correct then old(prefs.entries)
              else if currentScore > old(highScore)
                then old(prefs.entries)[CurrentScoreKey := currentScore][HighScoreKey := currentScore]
              else old(prefs.entries)[CurrentScoreKey := currentScore]
      ensures old(InSync()) ==> InSync()
    {
      ShowCorrectAnswer();
      var userAnswerIndex := FindButtonIndex(buttonIds, pressedId);
      if !(0 <= userAnswerIndex < |question|) {
        // Reading the question list at -1 or past its end throws.
        outcome := ClickCrashed;
        return;
      }
      var userAnswerSampleId := question[userAnswerIndex];
      var correct := UserCorrect(answer, userAnswerSampleId);
      if correct {
        currentScore := currentScore + 1;
        SetCurrentScore(prefs, currentScore);
        if currentScore > highScore {
          highScore := currentScore;
          SetHighScore(prefs, highScore);
        }
      }
      var _ := remaining.Remove(answer);
      outcome := Answered(userAnswerSampleId, correct);
    }
  }

  /** One screen's life: created from the handed-over list (or as a new
      game), clicked once, and, when a question was shown and the click
      landed on an answer, the remaining list handed to the next screen. The
      stored high score never decreases, consistent stored scores stay
      consistent, the current score gains at most one, no other stored entry
      changes, and a list is handed on exactly when the question had at least
      two choices and the pressed button lies within it; that list is one
      shorter than the list the round started with. */
  method PlayRound(prefs: SharedPreferences, buttonA: int, buttonB: int, buttonC: int, buttonD: int,
                   savedRemaining: Option<seq<int>>, allSampleIds: seq<int>, pressedId: int)
    returns (next: Option<seq<int>>)
    modifies prefs
    ensures HighScoreIn(prefs.entries) >= old(HighScoreIn(prefs.entries))
    ensures (|| ScoresConsistent(old(prefs.entries))
             || (savedRemaining.None? && 0 <= old(HighScoreIn(prefs.entries)))) ==>
      ScoresConsistent(prefs.entries)
    ensures var base := if savedRemaining.None? then 0 else old(CurrentScoreIn(prefs.entries));
      base <= CurrentScoreIn(prefs.entries) <= base + 1
    ensures var start := if savedRemaining.Some? then savedRemaining.value else allSampleIds;
      next.Some? ==>
        && 2 <= |start|
        && |next.value| == |start| - 1
        && multiset(next.value) < multiset(start)
        && (Distinct(start) ==> Distinct(next.value))
    ensures var start := if savedRemaining.Some? then savedRemaining.value else allSampleIds;
      next.Some? <==>
        2 <= |start| && 0 <= LastIndexOf([buttonA, buttonB, buttonC, buttonD], pressedId) < Min(NumAnswers, |start|)
    ensures OtherEntriesKept(old(prefs.entries), prefs.entries)
  {
    var start := if savedRemaining.Some? then savedRemaining.value else allSampleIds;
    ghost var entries0 := prefs.entries;
    var screen := new Activity(buttonA, buttonB, buttonC, buttonD, prefs);
    var started := screen.OnCreate(savedRemaining, allSampleIds);
    ghost var shuffled := screen.remaining.items;
    ghost var entries1 := prefs.entries;
    assert OtherEntriesKept(entries0, entries1);
    assert |start| == |multiset(start)| == |multiset(shuffled)| == |shuffled|;
    QuestionIsPrefixOfShuffle(shuffled);
    assert |screen.question| == Min(NumAnswers, |start|);
    if started != QuestionShown {
      assert |start| < 2;
      next := None;
      return;
    }
    ghost var answer := screen.answer;
    var clicked := screen.OnClick(pressedId);
    if clicked == ClickCrashed {
      next := None;
      return;
    }
    assert OtherEntriesKept(entries1, prefs.entries);
    OtherEntriesKeptChains(entries0, entries1, prefs.entries);
    RoundRetiresAnswer(start, shuffled, answer);
    HighScoreIsMaxAfterClick(Scores(old(CurrentScoreIn(prefs.entries)), old(HighScoreIn(prefs.entries))), answer, clicked.chosen);
    next := Some(screen.remaining.items);
  }
}
