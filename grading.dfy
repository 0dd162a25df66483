/** The result screen: the rounded percentage and the four feedback tiers. */
module Grading {

  /**
   * The percentage of correct answers rounded to the nearest integer, halves
   * rounding up, as `Math.round` does for a nonnegative value; computed exactly
   * instead of through a floating-point quotient.
   */
  function Percentage(score: int, total: int): (p: int)
    requires 0 <= score && 1 <= total
    ensures 0 <= p
    // p - 1/2 <= 100 * score / total < p + 1/2
    ensures 2 * total * p - total <= 200 * score < 2 * total * p + total
  {
    (200 * score + total) / (2 * total)
  }

  /** The rounding is the unique integer within one half of the exact ratio. */
  lemma {:induction false} PercentageUnique(score: int, total: int, q: int)
    requires 0 <= score && 1 <= total
    requires 2 * total * q - total <= 200 * score < 2 * total * q + total
    ensures q == Percentage(score, total)
  {
    var p := Percentage(score, total);
    if q < p {
      MulMonotone(2 * total, q + 1, p);
      assert false;
    } else if q > p {
      MulMonotone(2 * total, p + 1, q);
      assert false;
    }
  }

  lemma MulMonotone(k: int, a: int, b: int)
    requires 0 <= k && a <= b
    ensures k * a <= k * b
  {
  }

  /** A score between none and all of the questions gives a percentage in [0, 100]. */
  lemma {:induction false} PercentageInRange(score: int, total: int)
    requires 0 <= score <= total && 1 <= total
    ensures 0 <= Percentage(score, total) <= 100
    ensures score == 0 ==> Percentage(score, total) == 0
    ensures score == total ==> Percentage(score, total) == 100
  {
    var p := Percentage(score, total);
    if p > 100 {
      MulMonotone(2 * total, 101, p);
    }
    if score == 0 {
      PercentageUnique(score, total, 0);
    }
    if score == total {
      PercentageUnique(score, total, 100);
    }
  }

  /** A higher score never gives a lower percentage. */
  lemma {:induction false} PercentageMonotone(s1: int, s2: int, total: int)
    requires 0 <= s1 <= s2 && 1 <= total
    ensures Percentage(s1, total) <= Percentage(s2, total)
  {
    var p1, p2 := Percentage(s1, total), Percentage(s2, total);
    if p1 > p2 {
      MulMonotone(2 * total, p2 + 1, p1);
    }
  }

  /** The four feedback messages of the result screen, best first. */
  datatype Tier = Amazing | GreatJob | NotBad | KeepLearning

  /** 3 for the best tier down to 0 for the lowest. */
  function Rank(t: Tier): nat
  {
    match t
    case Amazing => 3
    case GreatJob => 2
    case NotBad => 1
    case KeepLearning => 0
  }

  /** The message banding; each threshold belongs to the higher tier. */
  function Band(percentage: int): (t: Tier)
    ensures t == Amazing <==> 90 <= percentage
    ensures t == GreatJob <==> 70 <= percentage < 90
    ensures t == NotBad <==> 50 <= percentage < 70
    ensures t == KeepLearning <==> percentage < 50
  {
    if percentage >= 90 then Amazing
    else if percentage >= 70 then GreatJob
    else if percentage >= 50 then NotBad
    else KeepLearning
  }

  /** A higher percentage never gives a lower tier. */
  lemma BandMonotone(p1: int, p2: int)
    requires p1 <= p2
    ensures Rank(Band(p1)) <= Rank(Band(p2))
  {
  }

  /** The tier shown for `score` correct answers out of `total`. */
  function Grade(score: int, total: int): (t: Tier)
    requires 0 <= score && 1 <= total
    ensures score == total ==> t == Amazing
    ensures score == 0 ==> t == KeepLearning
  {
    PercentageInRange(if score <= total then score else total, total);
    Band(Percentage(score, total))
  }

  /**
   * The tier read directly off the exact ratio score / total: the rounded
   * percentage reaches a threshold T exactly when 200 * score >= (2 * T - 1) * total.
   */
  lemma {:induction false} GradeByRatio(score: int, total: int)
    requires 0 <= score && 1 <= total
    ensures Grade(score, total) == Amazing <==> 200 * score >= 179 * total
    ensures Grade(score, total) == GreatJob <==> 139 * total <= 200 * score < 179 * total
    ensures Grade(score, total) == NotBad <==> 99 * total <= 200 * score < 139 * total
    ensures Grade(score, total) == KeepLearning <==> 200 * score < 99 * total
  {
    ReachesThreshold(score, total, 90);
    ReachesThreshold(score, total, 70);
    ReachesThreshold(score, total, 50);
  }

  /** The rounded percentage is at least `t` exactly when 200 * score >= (2t - 1) * total. */
  lemma {:induction false} ReachesThreshold(score: int, total: int, t: int)
    requires 0 <= score && 1 <= total
    ensures Percentage(score, total) >= t <==> 200 * score >= (2 * t - 1) * total
  {
    var p := Percentage(score, total);
    if p >= t {
      MulMonotone(2 * total, t, p);
      assert (2 * t - 1) * total == 2 * total * t - total;
    } else {
      MulMonotone(2 * total, p + 1, t);
      assert (2 * t - 1) * total == 2 * total * t - total;
    }
  }
}
