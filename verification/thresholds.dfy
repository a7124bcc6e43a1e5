/** Threshold ladders: the engine maps every count it measures to a score by
    trying a fixed list of strict lower bounds from the highest down. */
module Thresholds {

  /** A rung awards `score` when the measured value is strictly above `above`. */
  datatype Rung = Rung(above: int, score: int)

  /** The bounds fall and the scores fall from one rung to the next, and every
      rung scores more than the fall-through value 0. */
  predicate WellFormed(rungs: seq<Rung>)
  {
    && (forall i :: 0 <= i < |rungs| ==> rungs[i].score > 0)
    && (forall i, j :: 0 <= i < j < |rungs| ==> rungs[j].above < rungs[i].above && rungs[j].score < rungs[i].score)
  }

  /** Rung `i` is the first whose bound `n` exceeds. */
  predicate FirstAbove(rungs: seq<Rung>, n: int, i: int)
  {
    && 0 <= i < |rungs|
    && n > rungs[i].above
    && forall j :: 0 <= j < i ==> n <= rungs[j].above
  }

  /** The score of the first rung whose bound `n` exceeds, or 0 when `n`
      exceeds none of them. */
  function Climb(rungs: seq<Rung>, n: int): (r: int)
    ensures forall i :: FirstAbove(rungs, n, i) ==> r == rungs[i].score
    ensures (forall j :: 0 <= j < |rungs| ==> n <= rungs[j].above) ==> r == 0
    ensures r == 0 || exists i :: 0 <= i < |rungs| && r == rungs[i].score
  {
    if rungs == [] then 0
    else if n > rungs[0].above then rungs[0].score
    else
      var r := Climb(rungs[1..], n);
      assert forall i :: FirstAbove(rungs, n, i) ==> i > 0 && FirstAbove(rungs[1..], n, i - 1);
      r
  }

  /** On a well-formed ladder the score never falls as the count grows. */
  lemma {:induction false} ClimbMonotone(rungs: seq<Rung>, a: int, b: int)
    requires WellFormed(rungs)
    requires a <= b
    ensures Climb(rungs, a) <= Climb(rungs, b)
  {
    if rungs != [] {
      var rest := rungs[1..];
      assert WellFormed(rest) by {
        forall i, j | 0 <= i < j < |rest|
          ensures rest[j].above < rest[i].above && rest[j].score < rest[i].score
        {
          assert rest[i] == rungs[i + 1] && rest[j] == rungs[j + 1];
        }
      }
      if b > rungs[0].above {
        if a <= rungs[0].above {
          var r := Climb(rest, a);
          if r != 0 {
            var i :| 0 <= i < |rest| && r == rest[i].score;
            assert rest[i] == rungs[i + 1];
          }
        }
      } else {
        ClimbMonotone(rest, a, b);
      }
    }
  }

  /** On a well-formed ladder no score exceeds the top rung's. */
  lemma ClimbBounded(rungs: seq<Rung>, n: int)
    requires WellFormed(rungs)
    requires rungs != []
    ensures 0 <= Climb(rungs, n) <= rungs[0].score
  {
    var r := Climb(rungs, n);
    if r != 0 {
      var i :| 0 <= i < |rungs| && r == rungs[i].score;
      if i > 0 {
        assert rungs[i].score < rungs[0].score;
      }
    }
  }
}
