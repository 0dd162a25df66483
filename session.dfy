/**
 * The quiz session engine: the seven state cells of one play-through of a
 * category and the events that update them (start, answer selection, advance,
 * restart and the one-second countdown tick), each applied atomically.
 */
module Session {
  import opened Types
  import opened Scoring
  import opened Grading

  /** Seconds allowed per question. */
  const TimeLimit := 30

  class TriviaGame {
    const category: Category

    var currentQuestionIndex: int
    var selectedOption: Option<int>
    var isCorrect: Option<bool>
    var score: int
    var gameComplete: bool
    var timeLeft: int
    var gameStarted: bool

    /** The answers recorded for the questions before the current one (None: timed out). */
    ghost var answered: seq<Option<int>>

    ghost predicate Valid()
      reads this
    {
      Playable(category) &&
      0 <= currentQuestionIndex < |category.questions| &&
      (gameComplete ==> currentQuestionIndex == |category.questions| - 1) &&
      |answered| == currentQuestionIndex &&
      ValidHistory(category.questions, answered) &&
      ValidChoice(category.questions[currentQuestionIndex], selectedOption) &&
      isCorrect == (if selectedOption.Some?
                    then Some(Scores(category.questions[currentQuestionIndex], selectedOption))
                    else None) &&
      score == CorrectCount(category.questions, answered) + (if isCorrect == Some(true) then 1 else 0) &&
      0 <= timeLeft <= TimeLimit
    }

    /** The state of a session that has not yet answered anything. */
    predicate IsFresh()
      reads this
    {
      currentQuestionIndex == 0 && selectedOption == None && isCorrect == None &&
      score == 0 && !gameComplete && timeLeft == TimeLimit
    }

    function CurrentQuestion(): (q: Question)
      reads this
      requires Valid()
      ensures WellFormed(q)
    {
      category.questions[currentQuestionIndex]
    }

    constructor (category: Category)
      requires Playable(category)
      ensures Valid() && IsFresh() && !gameStarted && answered == []
      ensures this.category == category
    {
      this.category := category;
      currentQuestionIndex := 0;
      selectedOption := None;
      isCorrect := None;
      score := 0;
      gameComplete := false;
      timeLeft := TimeLimit;
      gameStarted := false;
      answered := [];
    }

    /** Leaves the intro screen; idempotent. */
    method HandleStartGame()
      requires Valid()
      modifies this`gameStarted
      ensures Valid() && gameStarted
    {
      gameStarted := true;
    }

    /**
     * Records the first answer given to the current question and scores it;
     * any later selection for the same question is ignored.
     */
    method HandleOptionSelect(optionIndex: int)
      requires Valid()
      requires 0 <= optionIndex < |CurrentQuestion().options|
      modifies this`selectedOption, this`isCorrect, this`score
      ensures Valid()
      ensures old(selectedOption).Some? ==>
                selectedOption == old(selectedOption) && isCorrect == old(isCorrect) && score == old(score)
      ensures old(selectedOption).None? ==>
                selectedOption == Some(optionIndex) &&
                isCorrect == Some(optionIndex == CurrentQuestion().correctAnswer) &&
                score == old(score) + (if optionIndex == CurrentQuestion().correctAnswer then 1 else 0)
    {
      if selectedOption != None {
        return;
      }
      selectedOption := Some(optionIndex);
      var correct := optionIndex == category.questions[currentQuestionIndex].correctAnswer;
      isCorrect := Some(correct);
      if correct {
        score := score + 1;
      }
    }

    /**
     * Moves on from the current question: the last question completes the
     * game, any other one gives way to the next with a cleared answer and a
     * full countdown. The score is never touched.
     */
    method HandleNextQuestion()
      requires Valid()
      modifies this`currentQuestionIndex, this`selectedOption, this`isCorrect,
               this`timeLeft, this`gameComplete, this`answered
      ensures Valid()
      ensures old(currentQuestionIndex) >= |category.questions| - 1 ==>
                gameComplete &&
                currentQuestionIndex == old(currentQuestionIndex) &&
                selectedOption == old(selectedOption) && isCorrect == old(isCorrect) &&
                timeLeft == old(timeLeft) && answered == old(answered)
      ensures old(currentQuestionIndex) < |category.questions| - 1 ==>
                currentQuestionIndex == old(currentQuestionIndex) + 1 &&
                selectedOption == None && isCorrect == None && timeLeft == TimeLimit &&
                gameComplete == old(gameComplete) &&
                answered == old(answered) + [old(selectedOption)]
    {
      if currentQuestionIndex >= |category.questions| - 1 {
        gameComplete := true;
      } else {
        ghost var passed := answered + [selectedOption];
        CorrectCountSnoc(category.questions, answered, selectedOption);
        assert ValidHistory(category.questions, passed);
        answered := passed;
        currentQuestionIndex := currentQuestionIndex + 1;
        selectedOption := None;
        isCorrect := None;
        timeLeft := TimeLimit;
      }
    }

    /** Starts the same category over; the session stays past its intro screen. */
    method HandleRestart()
      requires Valid()
      modifies this`currentQuestionIndex, this`selectedOption, this`isCorrect, this`score,
               this`gameComplete, this`timeLeft, this`answered
      ensures Valid() && IsFresh() && answered == []
    {
      currentQuestionIndex := 0;
      selectedOption := None;
      isCorrect := None;
      score := 0;
      gameComplete := false;
      timeLeft := TimeLimit;
      answered := [];
    }

    /**
     * One firing of the one-second countdown. It runs only while the game is
     * started and not complete, and keeps counting down after an answer has
     * been selected; on expiry the clock reads 0 and, when nothing was
     * selected, the session advances as HandleNextQuestion does. It never
     * changes the score.
     */
    method Tick()
      requires Valid()
      modifies this`currentQuestionIndex, this`selectedOption, this`isCorrect,
               this`timeLeft, this`gameComplete, this`answered
      ensures Valid()
      ensures !old(gameStarted) || old(gameComplete) ==> unchanged(this)
      ensures old(gameStarted) && !old(gameComplete) && old(timeLeft) > 1 ==>
                timeLeft == old(timeLeft) - 1 &&
                currentQuestionIndex == old(currentQuestionIndex) &&
                selectedOption == old(selectedOption) && isCorrect == old(isCorrect) &&
                !gameComplete && answered == old(answered)
      ensures old(gameStarted) && !old(gameComplete) && old(timeLeft) <= 1 && old(selectedOption).Some? ==>
                timeLeft == 0 &&
                currentQuestionIndex == old(currentQuestionIndex) &&
                selectedOption == old(selectedOption) && isCorrect == old(isCorrect) &&
                !gameComplete && answered == old(answered)
      ensures old(gameStarted) && !old(gameComplete) && old(timeLeft) <= 1 && old(selectedOption).None? &&
              old(currentQuestionIndex) >= |category.questions| - 1 ==>
                gameComplete && timeLeft == 0 &&
                currentQuestionIndex == old(currentQuestionIndex) &&
                selectedOption == None && isCorrect == None && answered == old(answered)
      ensures old(gameStarted) && !old(gameComplete) && old(timeLeft) <= 1 && old(selectedOption).None? &&
              old(currentQuestionIndex) < |category.questions| - 1 ==>
                !gameComplete && timeLeft == TimeLimit &&
                currentQuestionIndex == old(currentQuestionIndex) + 1 &&
                selectedOption == None && isCorrect == None && answered == old(answered) + [None]
    {
      if !gameStarted || gameComplete {
        return;
      }
      if timeLeft <= 1 {
        timeLeft := 0;
        if selectedOption == None {
          HandleNextQuestion();
        }
      } else {
        timeLeft := timeLeft - 1;
      }
    }

    /** The rounded percentage shown on the result screen; always between 0 and 100. */
    function ResultPercentage(): (p: int)
      reads this
      requires Valid()
      ensures 0 <= p <= 100
    {
      ScoreBounded();
      PercentageInRange(score, |category.questions|);
      Percentage(score, |category.questions|)
    }

    /** The feedback tier of the result screen; a perfect round always earns the top one. */
    function ResultTier(): (t: Tier)
      reads this
      requires Valid()
      ensures score == |category.questions| ==> t == Amazing
      ensures score == 0 ==> t == KeepLearning
    {
      ScoreBounded();
      Grade(score, |category.questions|)
    }

    /**
     * The score never exceeds the number of questions answered so far: those
     * already passed plus the current one once it has an answer.
     */
    lemma ScoreBounded()
      requires Valid()
      ensures 0 <= score <= currentQuestionIndex + (if selectedOption.Some? then 1 else 0)
      ensures score <= |category.questions|
    {
      CorrectCountSnoc(category.questions, answered, selectedOption);
      CorrectCountBounds(category.questions, answered);
    }
  }
}
