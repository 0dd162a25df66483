/**
 * Clients of the session engine: a whole play-through of a category, and an
 * arbitrary sequence of events applied to a fresh session.
 */
module Play {
  import opened Types
  import opened Scoring
  import opened Session

  /**
   * Plays a category from the intro screen to the result screen: for each
   * question, `plan` gives the option clicked, or None to let the countdown
   * run out. The game ends complete with the last question, `shown`, on
   * screen; `recorded`, the answers the session recorded question by question
   * followed by the last one's selection, is the plan itself, so every
   * question was visited once and in order. The final score counts the
   * questions whose planned answer is their correct option.
   */
  method PlayThrough(category: Category, plan: seq<Option<int>>)
    returns (score: int, complete: bool, ghost shown: int, ghost recorded: seq<Option<int>>)
    requires Playable(category)
    requires |plan| == |category.questions| && ValidHistory(category.questions, plan)
    ensures complete && shown == |category.questions| - 1
    ensures recorded == plan
    ensures score == CorrectCount(category.questions, plan)
    ensures 0 <= score <= |category.questions|
  {
    var game := new TriviaGame(category);
    game.HandleStartGame();
    var last := |plan| - 1;
    var k := 0;
    while k < last
      invariant 0 <= k <= last
      invariant game.Valid() && game.category == category && game.gameStarted && !game.gameComplete
      invariant game.currentQuestionIndex == k && game.selectedOption == None
      invariant game.timeLeft == TimeLimit && game.answered == plan[..k]
    {
      assert plan[..k] + [plan[k]] == plan[..k + 1];
      PlayQuestion(game, plan[k]);
      k := k + 1;
    }
    assert plan[..last] + [plan[last]] == plan;
    PlayQuestion(game, plan[last]);
    assert game.answered + [game.selectedOption] == plan;
    CorrectCountSnoc(category.questions, game.answered, game.selectedOption);
    score, complete := game.score, game.gameComplete;
    shown, recorded := game.currentQuestionIndex, game.answered + [game.selectedOption];
    CorrectCountBounds(category.questions, plan);
  }

  /**
   * Plays the current question, freshly shown with a full countdown: either
   * clicks `choice`, after which the countdown fires once before the 1.5
   * second delayed advance, or lets the countdown run out.
   */
  method PlayQuestion(game: TriviaGame, choice: Option<int>)
    requires game.Valid() && game.gameStarted && !game.gameComplete
    requires game.selectedOption == None && game.timeLeft == TimeLimit
    requires ValidChoice(game.CurrentQuestion(), choice)
    modifies game
    ensures game.Valid() && game.gameStarted
    ensures old(game.currentQuestionIndex) < |game.category.questions| - 1 ==>
              game.currentQuestionIndex == old(game.currentQuestionIndex) + 1 &&
              game.selectedOption == None && !game.gameComplete && game.timeLeft == TimeLimit &&
              game.answered == old(game.answered) + [choice]
    ensures old(game.currentQuestionIndex) >= |game.category.questions| - 1 ==>
              game.gameComplete && game.answered + [game.selectedOption] == old(game.answered) + [choice]
  {
    match choice {
      case Some(i) =>
        game.HandleOptionSelect(i);
        game.Tick();
        game.HandleNextQuestion();
      case None =>
        RunOutTheClock(game, TimeLimit);
    }
  }

  /**
   * Lets `ticks` firings of the countdown pass on an unanswered question. Before
   * the 30th the question stays shown with `30 - ticks` seconds left; the 30th
   * expires it, and the session advances with a fresh countdown or, on the
   * last question, completes.
   */
  method RunOutTheClock(game: TriviaGame, ticks: nat)
    requires game.Valid() && game.gameStarted && !game.gameComplete
    requires game.selectedOption == None && game.timeLeft == TimeLimit
    requires ticks <= TimeLimit
    modifies game
    ensures game.Valid() && game.gameStarted
    ensures ticks < TimeLimit ==>
              game.currentQuestionIndex == old(game.currentQuestionIndex) &&
              game.selectedOption == None && !game.gameComplete &&
              game.timeLeft == TimeLimit - ticks && game.answered == old(game.answered)
    ensures ticks == TimeLimit && old(game.currentQuestionIndex) < |game.category.questions| - 1 ==>
              game.currentQuestionIndex == old(game.currentQuestionIndex) + 1 &&
              game.selectedOption == None && !game.gameComplete && game.timeLeft == TimeLimit &&
              game.answered == old(game.answered) + [None]
    ensures ticks == TimeLimit && old(game.currentQuestionIndex) >= |game.category.questions| - 1 ==>
              game.gameComplete && game.selectedOption == None && game.answered == old(game.answered)
  {
    var t := 0;
    while t < ticks && t < TimeLimit - 1
      invariant 0 <= t <= ticks && t <= TimeLimit - 1
      invariant game.Valid() && game.gameStarted && !game.gameComplete
      invariant game.currentQuestionIndex == old(game.currentQuestionIndex)
      invariant game.selectedOption == None && game.answered == old(game.answered)
      invariant game.timeLeft == TimeLimit - t
    {
      game.Tick();
      t := t + 1;
    }
    if ticks == TimeLimit {
      game.Tick();
    }
  }

  /** One stimulus of the session: a button click or a timer firing. */
  datatype Event =
    | Start                     // the "Start Quiz" button
    | Select(optionIndex: int)  // an option button of the current question
    | Advance                   // the delayed advance after an answer
    | Restart                   // the "Try Again" button
    | Tick                      // one firing of the one-second countdown

  /**
   * Applies `events` one at a time to a fresh session of `category` and reports
   * the final state. A selection of an index that has no button on the current
   * question cannot be clicked and is skipped. Whatever the events, the index
   * stays on a question, the countdown within [0, 30] and the score within the
   * questions answered.
   */
  method Replay(category: Category, events: seq<Event>)
    returns (index: int, selected: Option<int>, score: int, complete: bool, timeLeft: int)
    requires Playable(category)
    ensures 0 <= index < |category.questions|
    ensures selected.Some? ==> 0 <= selected.value < |category.questions[index].options|
    ensures complete ==> index == |category.questions| - 1
    ensures 0 <= score <= index + (if selected.Some? then 1 else 0)
    ensures score <= |category.questions|
    ensures 0 <= timeLeft <= TimeLimit
  {
    var game := new TriviaGame(category);
    var k := 0;
    while k < |events|
      invariant 0 <= k <= |events|
      invariant game.Valid() && game.category == category
    {
      match events[k] {
        case Start => game.HandleStartGame();
        case Select(i) =>
          if 0 <= i < |category.questions[game.currentQuestionIndex].options| {
            game.HandleOptionSelect(i);
          }
        case Advance => game.HandleNextQuestion();
        case Restart => game.HandleRestart();
        case Tick => game.Tick();
      }
      k := k + 1;
    }
    game.ScoreBounded();
    index, selected, score := game.currentQuestionIndex, game.selectedOption, game.score;
    complete, timeLeft := game.gameComplete, game.timeLeft;
  }
}
