/** The seven signal calculators of `calculate_risk_score`. Each reads the
    store as it stood before the current attempt (the attempt is never part of
    its own windows) and the attempt's own parameters. */
module Signals {
  import opened Wrappers
  import opened EventStore
  import opened Thresholds

  const VelocityRungs: seq<Rung> := [Rung(10, 95), Rung(5, 70), Rung(3, 40)]
  const DeviceRungs: seq<Rung> := [Rung(5, 90), Rung(3, 60), Rung(1, 30)]
  const NetworkRungs: seq<Rung> := [Rung(3, 85), Rung(1, 50)]

  /** Latency used when the parameters carry none, and the average assumed
      for a user with no positive latency on record. */
  const DefaultLatency: int := 150
  const BotLatency: int := 50
  const LatencyDeviation: int := 200

  /** Markers of an emulated or test device, matched against the upper-cased
      device id. */
  const Markers: seq<string> := ["BYPASS", "TEST", "EMULATOR"]

  /** The breakdown: one value per signal. */
  datatype SignalVector = SignalVector(
    velocity: int,
    deviceSwitching: int,
    networkSwitching: int,
    latencyAnomaly: int,
    timingPattern: int,
    fingerprintChange: int,
    deviceSpoofing: int)
  {
    /** Every value lies in the output range its calculator can produce. */
    predicate InRange()
    {
      && velocity in {0, 40, 70, 95}
      && deviceSwitching in {0, 30, 60, 90}
      && networkSwitching in {0, 50, 85}
      && latencyAnomaly in {0, 50, 70}
      && timingPattern in {0, 50, 80}
      && fingerprintChange in {0, 60}
      && deviceSpoofing in {0, 85}
    }

    function AsSeq(): (r: seq<int>)
      ensures |r| == 7
    {
      [velocity, deviceSwitching, networkSwitching, latencyAnomaly,
       timingPattern, fingerprintChange, deviceSpoofing]
    }
  }

  // ---------------------------------------------------------------- velocity

  /** Attempts of the user in the last five minutes, laddered 95/70/40/0. */
  function Velocity(s: Store, user: string, now: int): (r: int)
    ensures r in {0, 40, 70, 95}
    ensures var n := CountSince(s, user, now - FiveMinutes);
      r == (if n > 10 then 95 else if n > 5 then 70 else if n > 3 then 40 else 0)
  {
    VelocityLadder(CountSince(s, user, now - FiveMinutes));
    Climb(VelocityRungs, CountSince(s, user, now - FiveMinutes))
  }

  /** More attempts in the window never lower the velocity signal. */
  lemma VelocityMonotone(a: int, b: int)
    requires a <= b
    ensures Climb(VelocityRungs, a) <= Climb(VelocityRungs, b)
  {
    ClimbMonotone(VelocityRungs, a, b);
  }

  /** The velocity ladder is the source's chain: more than 10 attempts give
      95, more than 5 give 70, more than 3 give 40, anything else 0. */
  lemma VelocityLadder(n: int)
    ensures Climb(VelocityRungs, n) == (if n > 10 then 95 else if n > 5 then 70 else if n > 3 then 40 else 0)
  {
    assert n > 10 ==> FirstAbove(VelocityRungs, n, 0);
    assert 5 < n <= 10 ==> FirstAbove(VelocityRungs, n, 1);
    assert 3 < n <= 5 ==> FirstAbove(VelocityRungs, n, 2);
  }

  // ---------------------------------------------------- device / network

  /** Distinct device ids of the user in the last thirty minutes, laddered
      90/60/30/0. */
  function DeviceSwitching(s: Store, user: string, now: int): (r: int)
    ensures r in {0, 30, 60, 90}
    ensures var n := DistinctDevices(s, user, now - ThirtyMinutes);
      r == (if n > 5 then 90 else if n > 3 then 60 else if n > 1 then 30 else 0)
  {
    DeviceLadder(DistinctDevices(s, user, now - ThirtyMinutes));
    Climb(DeviceRungs, DistinctDevices(s, user, now - ThirtyMinutes))
  }

  lemma DeviceSwitchingMonotone(a: int, b: int)
    requires a <= b
    ensures Climb(DeviceRungs, a) <= Climb(DeviceRungs, b)
  {
    ClimbMonotone(DeviceRungs, a, b);
  }

  /** More than 5, 3 or 1 distinct devices give 90, 60 or 30; otherwise 0. */
  lemma DeviceLadder(n: int)
    ensures Climb(DeviceRungs, n) == (if n > 5 then 90 else if n > 3 then 60 else if n > 1 then 30 else 0)
  {
    assert n > 5 ==> FirstAbove(DeviceRungs, n, 0);
    assert 3 < n <= 5 ==> FirstAbove(DeviceRungs, n, 1);
    assert 1 < n <= 3 ==> FirstAbove(DeviceRungs, n, 2);
  }

  /** Distinct non-empty network operators of the user in the last thirty
      minutes, laddered 85/50/0. */
  function NetworkSwitching(s: Store, user: string, now: int): (r: int)
    ensures r in {0, 50, 85}
    ensures var n := DistinctOperators(s, user, now - ThirtyMinutes);
      r == (if n > 3 then 85 else if n > 1 then 50 else 0)
  {
    NetworkLadder(DistinctOperators(s, user, now - ThirtyMinutes));
    Climb(NetworkRungs, DistinctOperators(s, user, now - ThirtyMinutes))
  }

  lemma NetworkSwitchingMonotone(a: int, b: int)
    requires a <= b
    ensures Climb(NetworkRungs, a) <= Climb(NetworkRungs, b)
  {
    ClimbMonotone(NetworkRungs, a, b);
  }

  /** More than 3 or 1 distinct operators give 85 or 50; otherwise 0. */
  lemma NetworkLadder(n: int)
    ensures Climb(NetworkRungs, n) == (if n > 3 then 85 else if n > 1 then 50 else 0)
  {
    assert n > 3 ==> FirstAbove(NetworkRungs, n, 0);
    assert 1 < n <= 3 ==> FirstAbove(NetworkRungs, n, 1);
  }

  // ----------------------------------------------------------------- latency

  predicate PositiveLatencyOf(e: Event, user: string)
  {
    e.username == user && e.latency > 0
  }

  /** The user's events that carry a positive latency: the rows `AVG(latency)`
      ranges over. */
  function LatencySamples(s: Store, user: string): (r: seq<Event>)
    ensures forall e :: e in r <==> e in s && e.username == user && e.latency > 0
  {
    Filter(s, e => PositiveLatencyOf(e, user))
  }

  function LatencySum(ev: seq<Event>): int
  {
    if ev == [] then 0 else LatencySum(ev[..|ev| - 1]) + ev[|ev| - 1].latency
  }

  function Abs(x: int): int
  {
    if x < 0 then -x else x
  }

  /** The latency anomaly signal. The comparison of the current latency with
      the user's average is made exactly, by cross-multiplying with the number
      of samples instead of dividing. */
  function LatencyAnomaly(s: Store, user: string, current: int): (r: int)
    ensures r in {0, 50, 70}
    ensures current < BotLatency ==> r == 70
  {
    var samples := LatencySamples(s, user);
    var n := |samples|;
    if current < BotLatency then 70
    else if n == 0 then (if Abs(current - DefaultLatency) > LatencyDeviation then 50 else 0)
    else if Abs(current * n - LatencySum(samples)) > LatencyDeviation * n then 50
    else 0
  }

  /** The user's mean positive latency as a real number, or 150 when the user
      has none: the value `AVG(latency) or 150` stands for. */
  function AverageLatency(s: Store, user: string): real
  {
    var samples := LatencySamples(s, user);
    if |samples| == 0 then DefaultLatency as real
    else LatencySum(samples) as real / |samples| as real
  }

  function RealAbs(x: real): real
  {
    if x < 0.0 then -x else x
  }

  /** Multiplying by a positive factor keeps the order. */
  lemma ScaleOrder(x: real, y: real, k: real)
    requires k > 0.0
    ensures x > y <==> x * k > y * k
  {
    assert x * k - y * k == (x - y) * k;
  }

  /** Multiplying by a positive factor commutes with the absolute value. */
  lemma ScaleAbs(x: real, k: real)
    requires k > 0.0
    ensures RealAbs(x * k) == RealAbs(x) * k
  {
    ScaleOrder(x, 0.0, k);
    if x < 0.0 {
      assert -(x * k) == (-x) * k;
    }
  }

  lemma ProductAsReal(a: int, b: int)
    ensures (a * b) as real == a as real * b as real
  {
  }

  /** The integer deviation `c*n - sum` is the real deviation from the mean,
      scaled by `n`. */
  lemma DeviationAsReal(c: int, sum: int, n: int)
    requires n > 0
    ensures (c * n - sum) as real == (c as real - sum as real / n as real) * n as real
  {
    ProductAsReal(c, n);
    assert (sum as real / n as real) * n as real == sum as real;
  }

  /** An integer deviation `x` that is a real deviation `d` scaled by `n`
      exceeds `200*n` exactly when `d` exceeds 200 in absolute value. */
  lemma ScaledDeviation(x: int, d: real, n: int)
    requires n > 0
    requires x as real == d * n as real
    ensures Abs(x) > LatencyDeviation * n <==> RealAbs(d) > LatencyDeviation as real
  {
    var k := n as real;
    AbsAsReal(x);
    ScaleAbs(d, k);
    assert Abs(x) as real == RealAbs(d) * k;
    ProductAsReal(LatencyDeviation, n);
    assert Abs(x) > LatencyDeviation * n <==> RealAbs(d) * k > LatencyDeviation as real * k;
    ScaleOrder(RealAbs(d), LatencyDeviation as real, k);
  }

  lemma AbsAsReal(x: int)
    ensures Abs(x) as real == RealAbs(x as real)
  {
  }

  /** For a positive sample count, comparing `|c*n - sum|` with `200*n`
      decides the same as comparing `|c - sum/n|` with 200. */
  lemma CrossMultiplied(c: int, sum: int, n: int)
    requires n > 0
    ensures Abs(c * n - sum) > LatencyDeviation * n <==>
      RealAbs(c as real - sum as real / n as real) > LatencyDeviation as real
  {
    DeviationAsReal(c, sum, n);
    ScaledDeviation(c * n - sum, c as real - sum as real / n as real, n);
  }

  /** The cross-multiplied comparison decides exactly what comparing with the
      real-valued average decides: 70 below 50 ms, otherwise 50 when the
      current latency is more than 200 ms from the average, otherwise 0. */
  lemma LatencyAnomalyMatchesAverage(s: Store, user: string, current: int)
    ensures LatencyAnomaly(s, user, current) ==
      (if current < BotLatency then 70
       else if RealAbs(current as real - AverageLatency(s, user)) > LatencyDeviation as real then 50
       else 0)
  {
    var samples := LatencySamples(s, user);
    if |samples| > 0 {
      CrossMultiplied(current, LatencySum(samples), |samples|);
    }
  }

  // ------------------------------------------------------------------ timing

  /** `i` holds the newest timestamp of `ev` and `j` the newest of the rest:
      the two rows `ORDER BY timestamp DESC LIMIT 2` returns. */
  predicate IsTopTwo(ev: seq<Event>, i: int, j: int)
  {
    && 0 <= i < |ev| && 0 <= j < |ev| && i != j
    && (forall k :: 0 <= k < |ev| ==> ev[k].timestamp <= ev[i].timestamp)
    && (forall k :: 0 <= k < |ev| && k != i ==> ev[k].timestamp <= ev[j].timestamp)
  }

  /** Positions of the two most recent events, found in one pass. */
  function TopTwo(ev: seq<Event>): (r: Option<(int, int)>)
    ensures r.None? <==> |ev| < 2
    ensures r.Some? ==> IsTopTwo(ev, r.value.0, r.value.1)
  {
    if |ev| < 2 then None
    else if |ev| == 2 then
      (if ev[0].timestamp >= ev[1].timestamp then Some((0, 1)) else Some((1, 0)))
    else
      var init := ev[..|ev| - 1];
      var pair := TopTwo(init).value;
      var i, j := pair.0, pair.1;
      var k := |ev| - 1;
      assert forall m :: 0 <= m < k ==> ev[m] == init[m];
      if ev[k].timestamp >= ev[i].timestamp then Some((k, i))
      else if ev[k].timestamp > ev[j].timestamp then Some((i, k))
      else Some((i, j))
  }

  /** Whichever rows tie for first and second place, the gap between the two
      most recent timestamps is the same. */
  lemma TopTwoGapUnique(ev: seq<Event>, i1: int, j1: int, i2: int, j2: int)
    requires IsTopTwo(ev, i1, j1) && IsTopTwo(ev, i2, j2)
    ensures ev[i1].timestamp - ev[j1].timestamp == ev[i2].timestamp - ev[j2].timestamp
  {
  }

  function TimingLevel(gap: int): int
  {
    if gap < 1000 then 80 else if gap < 5000 then 50 else 0
  }

  /** Request timing: 0 with fewer than two prior events of the user, else the
      gap between the two most recent ones laddered 80/50/0. */
  function TimingPattern(s: Store, user: string): (r: int)
    ensures r in {0, 50, 80}
    ensures |UserEvents(s, user)| < 2 ==> r == 0
  {
    var ev := UserEvents(s, user);
    match TopTwo(ev)
    case None => 0
    case Some(pair) => TimingLevel(ev[pair.0].timestamp - ev[pair.1].timestamp)
  }

  /** Whichever two rows a database returns as the user's newest, the timing
      signal is the level of the gap between them. */
  lemma TimingFromNewestTwo(s: Store, user: string, i: int, j: int)
    requires IsTopTwo(UserEvents(s, user), i, j)
    ensures TimingPattern(s, user) ==
      TimingLevel(UserEvents(s, user)[i].timestamp - UserEvents(s, user)[j].timestamp)
  {
    var ev := UserEvents(s, user);
    var pair := TopTwo(ev).value;
    TopTwoGapUnique(ev, pair.0, pair.1, i, j);
  }

  /** A wider gap never raises the timing signal. */
  lemma TimingAntitone(a: int, b: int)
    requires a <= b
    ensures TimingLevel(b) <= TimingLevel(a)
  {
  }

  // ------------------------------------------------------------- fingerprint

  predicate StoredFingerprintOf(e: Event, user: string)
  {
    e.username == user && e.fingerprint != ""
  }

  /** The user's events that carry a non-empty fingerprint. */
  function StoredFingerprints(s: Store, user: string): (r: seq<Event>)
    ensures forall e :: e in r <==> e in s && StoredFingerprintOf(e, user)
  {
    Filter(s, e => StoredFingerprintOf(e, user))
  }

  /** Position of a most recent event; among equal timestamps the one stored
      last. */
  function Latest(ev: seq<Event>): (r: Option<int>)
    ensures r.None? <==> ev == []
    ensures r.Some? ==> 0 <= r.value < |ev|
    ensures r.Some? ==> forall k :: 0 <= k < |ev| ==> ev[k].timestamp <= ev[r.value].timestamp
    ensures r.Some? ==> forall k :: r.value < k < |ev| ==> ev[k].timestamp < ev[r.value].timestamp
  {
    if ev == [] then None
    else
      var init := ev[..|ev| - 1];
      var k := |ev| - 1;
      assert forall m :: 0 <= m < k ==> ev[m] == init[m];
      match Latest(init)
      case None => Some(k)
      case Some(i) => if ev[k].timestamp >= ev[i].timestamp then Some(k) else Some(i)
  }

  /** `e` is one of the user's stored fingerprints and none is newer. */
  predicate NewestFingerprint(s: Store, user: string, e: Event)
  {
    && e in s && StoredFingerprintOf(e, user)
    && forall e' :: e' in s && StoredFingerprintOf(e', user) ==> e'.timestamp <= e.timestamp
  }

  /** The most recent non-empty fingerprint on record for the user. */
  function LastFingerprint(s: Store, user: string): (r: Option<string>)
    ensures r.None? <==> forall e :: e in s ==> !StoredFingerprintOf(e, user)
    ensures r.Some? ==> exists e :: NewestFingerprint(s, user, e) && e.fingerprint == r.value
  {
    var stored := StoredFingerprints(s, user);
    match Latest(stored)
    case None => None
    case Some(i) =>
      assert stored[i] in stored;
      forall e' | e' in s && StoredFingerprintOf(e', user)
        ensures e'.timestamp <= stored[i].timestamp
      {
        var k :| 0 <= k < |stored| && stored[k] == e';
      }
      assert NewestFingerprint(s, user, stored[i]);
      Some(stored[i].fingerprint)
  }

  /** 60 when a fingerprint is on record, the attempt supplies one, and the
      two differ; 0 otherwise. */
  function FingerprintChange(s: Store, user: string, current: string): (r: int)
    ensures r in {0, 60}
    ensures current == "" ==> r == 0
    ensures (forall e :: e in s ==> !StoredFingerprintOf(e, user)) ==> r == 0
    ensures r == 60 <==> current != "" && LastFingerprint(s, user).Some? && LastFingerprint(s, user).value != current
  {
    match LastFingerprint(s, user)
    case None => 0
    case Some(last) => if current != "" && last != current then 60 else 0
  }

  /** A fingerprint that matches everything on record never scores, and one
      that matches nothing on record always does. */
  lemma FingerprintAgainstHistory(s: Store, user: string, current: string)
    ensures (forall e :: e in s && StoredFingerprintOf(e, user) ==> e.fingerprint == current) ==>
      FingerprintChange(s, user, current) == 0
    ensures
      && current != ""
      && (exists e :: e in s && StoredFingerprintOf(e, user))
      && (forall e :: e in s && StoredFingerprintOf(e, user) ==> e.fingerprint != current)
      ==> FingerprintChange(s, user, current) == 60
  {
  }

  /** The signal is decided by the newest stored fingerprint alone: when the
      rows tied for newest agree, it is 60 exactly when the attempt supplies
      a fingerprint that differs from theirs, whatever older rows hold. */
  lemma FingerprintAgainstNewest(s: Store, user: string, current: string, e: Event)
    requires NewestFingerprint(s, user, e)
    requires forall e' :: NewestFingerprint(s, user, e') ==> e'.fingerprint == e.fingerprint
    ensures FingerprintChange(s, user, current) == (if current != "" && e.fingerprint != current then 60 else 0)
  {
  }

  /** A user who stored "A" and later "B" and now presents "A" scores 60: only
      the newest fingerprint counts. */
  lemma FingerprintRevertScores()
    ensures var a := Event("u", 1, "d", "", 0, "A", "", "", 1, true, 0);
      var b := Event("u", 1, "d", "", 0, "B", "", "", 2, true, 0);
      FingerprintChange([a, b], "u", "A") == 60
  {
    var a := Event("u", 1, "d", "", 0, "A", "", "", 1, true, 0);
    var b := Event("u", 1, "d", "", 0, "B", "", "", 2, true, 0);
    FingerprintAgainstNewest([a, b], "u", "A", b);
  }

  // ---------------------------------------------------------------- spoofing

  /** Upper-casing of one character (ASCII letters only). */
  function UpperChar(c: char): char
  {
    if 'a' <= c <= 'z' then (c as int - 32) as char else c
  }

  function Upper(s: string): (r: string)
    ensures |r| == |s|
    ensures forall i :: 0 <= i < |s| ==> r[i] == UpperChar(s[i])
  {
    seq(|s|, i requires 0 <= i < |s| => UpperChar(s[i]))
  }

  /** `pat` occurs in `s` at position `i`. */
  predicate At(s: string, pat: string, i: int)
  {
    0 <= i && i + |pat| <= |s| && s[i..i + |pat|] == pat
  }

  /** An occurrence past the first position is an occurrence in the tail,
      and the other way round. */
  lemma AtShift(s: string, pat: string)
    requires s != []
    ensures forall i :: At(s, pat, i) && i > 0 ==> At(s[1..], pat, i - 1)
    ensures forall i :: At(s[1..], pat, i) ==> At(s, pat, i + 1)
  {
    forall i | At(s, pat, i) && i > 0
      ensures At(s[1..], pat, i - 1)
    {
      assert s[1..][i - 1..i - 1 + |pat|] == s[i..i + |pat|];
    }
    forall i | At(s[1..], pat, i)
      ensures At(s, pat, i + 1)
    {
      assert s[1..][i..i + |pat|] == s[i + 1..i + 1 + |pat|];
    }
  }

  /** Substring search, Python's `pat in s`. */
  function OccursIn(pat: string, s: string): (r: bool)
    ensures r <==> exists i :: At(s, pat, i)
  {
    if |s| < |pat| then false
    else if s[..|pat|] == pat then
      assert At(s, pat, 0);
      true
    else
      AtShift(s, pat);
      OccursIn(pat, s[1..])
  }

  /** 85 exactly when the upper-cased device id contains one of the markers. */
  function DeviceSpoofing(deviceId: string): (r: int)
    ensures r in {0, 85}
    ensures r == 85 <==> exists m, i :: m in Markers && At(Upper(deviceId), m, i)
  {
    var u := Upper(deviceId);
    if OccursIn(Markers[0], u) || OccursIn(Markers[1], u) || OccursIn(Markers[2], u) then 85 else 0
  }

  lemma UpperIdempotent(s: string)
    ensures Upper(Upper(s)) == Upper(s)
  {
  }

  /** Upper-casing preserves an occurrence. */
  lemma {:induction false} UpperKeepsOccurrence(s: string, w: string, i: int)
    requires At(s, w, i)
    ensures At(Upper(s), Upper(w), i)
  {
    var slice := Upper(s)[i..i + |w|];
    forall k | 0 <= k < |w|
      ensures slice[k] == Upper(w)[k]
    {
      assert slice[k] == Upper(s)[i + k] == UpperChar(s[i + k]);
      assert s[i + k] == s[i..i + |w|][k] == w[k];
    }
    assert slice == Upper(w);
  }

  /** The match is case-insensitive: a device id containing any spelling of a
      marker ("bypass", "Emulator", ...) is flagged, and upper-casing the id
      first changes nothing. */
  lemma SpoofingIgnoresCase(deviceId: string, w: string, i: int)
    ensures DeviceSpoofing(Upper(deviceId)) == DeviceSpoofing(deviceId)
    ensures Upper(w) in Markers && At(deviceId, w, i) ==> DeviceSpoofing(deviceId) == 85
  {
    UpperIdempotent(deviceId);
    if Upper(w) in Markers && At(deviceId, w, i) {
      UpperKeepsOccurrence(deviceId, w, i);
    }
  }

  // ------------------------------------------------------------------ vector

  /** All seven signals for one attempt, computed over the pre-attempt store. */
  function Compute(s: Store, user: string, p: Params, now: int): (v: SignalVector)
    ensures v.InRange()
  {
    SignalVector(
      Velocity(s, user, now),
      DeviceSwitching(s, user, now),
      NetworkSwitching(s, user, now),
      LatencyAnomaly(s, user, p.latency.GetOr(DefaultLatency)),
      TimingPattern(s, user),
      FingerprintChange(s, user, p.fingerprint),
      DeviceSpoofing(p.deviceId))
  }

  /** Cold start: for a user with nothing on record every history-dependent
      signal except the latency anomaly is 0. */
  lemma ColdStart(s: Store, user: string, p: Params, now: int)
    requires forall e :: e in s ==> e.username != user
    ensures Compute(s, user, p, now).velocity == 0
    ensures Compute(s, user, p, now).deviceSwitching == 0
    ensures Compute(s, user, p, now).networkSwitching == 0
    ensures Compute(s, user, p, now).timingPattern == 0
    ensures Compute(s, user, p, now).fingerprintChange == 0
  {
    NoHistory(s, user, now - FiveMinutes);
    NoHistory(s, user, now - ThirtyMinutes);
  }
}
