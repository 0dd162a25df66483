/** How many of the answers given so far were correct. */
module Scoring {
  import opened Types

  /** Whether an answer to `q` scores a point: only the correct option does. */
  predicate Scores(q: Question, answer: Option<int>)
  {
    answer == Some(q.correctAnswer)
  }

  /**
   * The number of correct answers in `answers`, where `answers[k]` is what was
   * chosen for question `k` (None when the question timed out).
   */
  function CorrectCount(qs: seq<Question>, answers: seq<Option<int>>): int
    requires |answers| <= |qs|
  {
    if answers == [] then 0
    else
      var last := |answers| - 1;
      CorrectCount(qs, answers[..last]) + (if Scores(qs[last], answers[last]) then 1 else 0)
  }

  /** No history earns fewer than zero points or more than one point per answer. */
  lemma {:induction false} CorrectCountBounds(qs: seq<Question>, answers: seq<Option<int>>)
    requires |answers| <= |qs|
    ensures 0 <= CorrectCount(qs, answers) <= |answers|
    ensures answers == [] ==> CorrectCount(qs, answers) == 0
  {
    if answers != [] {
      CorrectCountBounds(qs, answers[..|answers| - 1]);
    }
  }

  /** Recording one more answer adds exactly one point when it is correct and none otherwise. */
  lemma CorrectCountSnoc(qs: seq<Question>, answers: seq<Option<int>>, a: Option<int>)
    requires |answers| < |qs|
    ensures CorrectCount(qs, answers + [a])
         == CorrectCount(qs, answers) + (if Scores(qs[|answers|], a) then 1 else 0)
  {
    assert (answers + [a])[..|answers|] == answers;
  }

  /** A question that timed out scores exactly like one answered wrongly. */
  lemma TimeoutScoresAsWrong(qs: seq<Question>, answers: seq<Option<int>>, wrong: int)
    requires |answers| < |qs|
    requires !Scores(qs[|answers|], Some(wrong))
    ensures CorrectCount(qs, answers + [None]) == CorrectCount(qs, answers)
    ensures CorrectCount(qs, answers + [Some(wrong)]) == CorrectCount(qs, answers)
  {
    CorrectCountSnoc(qs, answers, None);
    CorrectCountSnoc(qs, answers, Some(wrong));
  }

  /** The indices of the questions answered correctly. */
  function CorrectIndices(qs: seq<Question>, answers: seq<Option<int>>): set<int>
    requires |answers| <= |qs|
  {
    set k | 0 <= k < |answers| && Scores(qs[k], answers[k])
  }

  /** The count is the number of questions whose recorded answer is their correct option. */
  lemma {:induction false} CorrectCountIsCardinality(qs: seq<Question>, answers: seq<Option<int>>)
    requires |answers| <= |qs|
    ensures CorrectCount(qs, answers) == |CorrectIndices(qs, answers)|
  {
    if answers != [] {
      var last := |answers| - 1;
      var prefix := answers[..last];
      CorrectCountIsCardinality(qs, prefix);
      var before := CorrectIndices(qs, prefix);
      var after := CorrectIndices(qs, answers);
      if Scores(qs[last], answers[last]) {
        assert after == before + {last};
        assert last !in before;
      } else {
        assert after == before;
      }
    }
  }

  /** Answering every question correctly scores one point per question. */
  lemma {:induction false} AllCorrectScoresAll(qs: seq<Question>, answers: seq<Option<int>>)
    requires |answers| <= |qs|
    requires forall k :: 0 <= k < |answers| ==> Scores(qs[k], answers[k])
    ensures CorrectCount(qs, answers) == |answers|
  {
    if answers != [] {
      AllCorrectScoresAll(qs, answers[..|answers| - 1]);
    }
  }

  /** Answering no question correctly scores nothing. */
  lemma {:induction false} NoneCorrectScoresZero(qs: seq<Question>, answers: seq<Option<int>>)
    requires |answers| <= |qs|
    requires forall k :: 0 <= k < |answers| ==> !Scores(qs[k], answers[k])
    ensures CorrectCount(qs, answers) == 0
  {
    if answers != [] {
      NoneCorrectScoresZero(qs, answers[..|answers| - 1]);
    }
  }
}
