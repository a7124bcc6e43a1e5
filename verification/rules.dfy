/** The rule-based aggregator: a fixed-weight sum of the seven signals. Every
    signal is an integer and every weight a multiple of 0.05, so the total is
    exact in integer hundredths and the two-decimal rounding changes nothing. */
module RuleScore {
  import opened Signals

  /** Weights in hundredths, in the order of `SignalVector.AsSeq`: velocity,
      device switching, network switching, latency anomaly, timing pattern,
      fingerprint change, device spoofing. */
  const Weights: seq<int> := [25, 20, 15, 15, 10, 10, 5]

  /** The largest value each signal can take, in the same order. */
  const Peaks: seq<int> := [95, 90, 85, 70, 80, 60, 85]

  /** The highest rule total, 83.25. */
  const MaxTotal: int := 8325

  /** Position of the device spoofing signal. */
  const SpoofingIndex: int := 6

  function Dot(ws: seq<int>, xs: seq<int>): int
    requires |ws| == |xs|
  {
    if ws == [] then 0 else ws[0] * xs[0] + Dot(ws[1..], xs[1..])
  }

  function Sum(ws: seq<int>): int
  {
    if ws == [] then 0 else ws[0] + Sum(ws[1..])
  }

  /** The weighted sum of seven signals written out term by term. */
  lemma Dot7(ws: seq<int>, xs: seq<int>)
    requires |ws| == |xs| == 7
    ensures Dot(ws, xs) == ws[0] * xs[0] + ws[1] * xs[1] + ws[2] * xs[2] + ws[3] * xs[3]
      + ws[4] * xs[4] + ws[5] * xs[5] + ws[6] * xs[6]
  {
    var w, x := ws, xs;
    assert Dot(w, x) == w[0] * x[0] + Dot(w[1..], x[1..]);
    w, x := w[1..], x[1..];
    assert Dot(w, x) == w[0] * x[0] + Dot(w[1..], x[1..]);
    w, x := w[1..], x[1..];
    assert Dot(w, x) == w[0] * x[0] + Dot(w[1..], x[1..]);
    w, x := w[1..], x[1..];
    assert Dot(w, x) == w[0] * x[0] + Dot(w[1..], x[1..]);
    w, x := w[1..], x[1..];
    assert Dot(w, x) == w[0] * x[0] + Dot(w[1..], x[1..]);
    w, x := w[1..], x[1..];
    assert Dot(w, x) == w[0] * x[0] + Dot(w[1..], x[1..]);
    w, x := w[1..], x[1..];
    assert Dot(w, x) == w[0] * x[0] + Dot(w[1..], x[1..]);
    assert w[1..] == [];
  }

  /** With non-negative weights the weighted sum is monotone in every
      coordinate: it lies between its values at the lower and upper bounds. */
  lemma {:induction false} DotBounds(ws: seq<int>, lo: seq<int>, xs: seq<int>, hi: seq<int>)
    requires |ws| == |lo| == |xs| == |hi|
    requires forall i :: 0 <= i < |ws| ==> ws[i] >= 0 && lo[i] <= xs[i] <= hi[i]
    ensures Dot(ws, lo) <= Dot(ws, xs) <= Dot(ws, hi)
  {
    if ws != [] {
      DotBounds(ws[1..], lo[1..], xs[1..], hi[1..]);
      assert ws[0] * lo[0] <= ws[0] * xs[0] <= ws[0] * hi[0] by {
        assert ws[0] * (xs[0] - lo[0]) >= 0;
        assert ws[0] * (hi[0] - xs[0]) >= 0;
      }
    }
  }

  /** Changing one coordinate changes the weighted sum by exactly that
      coordinate's weight times the change. */
  lemma {:induction false} DotUpdate(ws: seq<int>, xs: seq<int>, k: int, v: int)
    requires |ws| == |xs|
    requires 0 <= k < |xs|
    ensures Dot(ws, xs[k := v]) == Dot(ws, xs) + ws[k] * (v - xs[k])
  {
    var ys := xs[k := v];
    if k == 0 {
      assert ys[1..] == xs[1..];
    } else {
      assert ys[1..] == xs[1..][k - 1 := v];
      DotUpdate(ws[1..], xs[1..], k - 1, v);
    }
  }

  /** `round(sum(scores[k] * weights[k]), 2)`, in hundredths. */
  function Total(v: SignalVector): (t: int)
    ensures v.InRange() ==> 0 <= t <= MaxTotal
  {
    Dot7(Weights, v.AsSeq());
    Dot(Weights, v.AsSeq())
  }

  /** The weights sum to 1, and the total is the weighted sum written out. */
  lemma WeightsSumToOne(v: SignalVector)
    ensures Sum(Weights) == 100
    ensures Total(v) == 25 * v.velocity + 20 * v.deviceSwitching + 15 * v.networkSwitching
      + 15 * v.latencyAnomaly + 10 * v.timingPattern + 10 * v.fingerprintChange + 5 * v.deviceSpoofing
  {
    Dot7(Weights, v.AsSeq());
    Dot7(Weights, [1, 1, 1, 1, 1, 1, 1]);
    assert Sum(Weights) == Dot(Weights, [1, 1, 1, 1, 1, 1, 1]) by {
      SumIsDotWithOnes(Weights, [1, 1, 1, 1, 1, 1, 1]);
    }
  }

  lemma {:induction false} SumIsDotWithOnes(ws: seq<int>, ones: seq<int>)
    requires |ws| == |ones|
    requires forall i :: 0 <= i < |ones| ==> ones[i] == 1
    ensures Sum(ws) == Dot(ws, ones)
  {
    if ws != [] {
      SumIsDotWithOnes(ws[1..], ones[1..]);
    }
  }

  /** The bound 83.25 comes from the peaks: every in-range signal lies
      between 0 and its peak, and the vector of all peaks is in range and
      reaches the bound. */
  lemma PeaksGiveMaxTotal(v: SignalVector)
    ensures v.InRange() ==> forall i :: 0 <= i < 7 ==> 0 <= v.AsSeq()[i] <= Peaks[i]
    ensures Dot(Weights, Peaks) == MaxTotal
    ensures SignalVector(95, 90, 85, 70, 80, 60, 85).InRange()
    ensures Total(SignalVector(95, 90, 85, 70, 80, 60, 85)) == MaxTotal
  {
    Dot7(Weights, Peaks);
    assert SignalVector(95, 90, 85, 70, 80, 60, 85).AsSeq() == Peaks;
  }

  /** A flagged device id adds exactly 4.25 to the total, whatever the other
      six signals are. */
  lemma SpoofingAddsExactly(v: SignalVector)
    ensures Total(v.(deviceSpoofing := 85)) == Total(v.(deviceSpoofing := 0)) + 425
  {
    var off := v.(deviceSpoofing := 0);
    assert v.(deviceSpoofing := 85).AsSeq() == off.AsSeq()[SpoofingIndex := 85];
    DotUpdate(Weights, off.AsSeq(), SpoofingIndex, 85);
  }

  /** A worked example: velocity 40, device switching 30 and timing 50
      give 21.0. */
  lemma ExampleTotal()
    ensures Total(SignalVector(40, 30, 0, 0, 50, 0, 0)) == 2100
  {
    Dot7(Weights, SignalVector(40, 30, 0, 0, 50, 0, 0).AsSeq());
  }

  /** A score is monotone in every signal: raising any signal never lowers
      the total. */
  lemma TotalMonotone(v: SignalVector, w: SignalVector)
    requires forall i :: 0 <= i < 7 ==> v.AsSeq()[i] <= w.AsSeq()[i]
    ensures Total(v) <= Total(w)
  {
    DotBounds(Weights, v.AsSeq(), v.AsSeq(), w.AsSeq());
  }
}
