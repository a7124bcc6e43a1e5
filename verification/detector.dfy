/** The anomaly detector around the isolation forest: the feature vectors it
    is trained and queried on, the sample-count guard on training, the clamp
    of its output to [0, 100], and the 70/30 blend with the rule total. The
    forest itself is an oracle. */
module Detector {
  import opened Wrappers
  import opened EventStore
  import opened Signals
  import opened RuleScore

  /** `[latency, risk_score, step, 5-minute count, 30-minute distinct devices]` */
  datatype Features = Features(latency: int, riskScore: int, step: int, velocity: nat, devices: nat)

  /** A trained forest. Training uses a fixed random seed, so a snapshot is
      determined by the samples it was fitted to. */
  datatype Forest = Forest(samples: seq<Features>)

  /** The forest's scoring as an oracle: for the training samples and one
      feature vector, `-score_samples(...) * 100` rounded to hundredths, as an
      integer number of hundredths. Nothing is assumed about its value. */
  type Oracle = (seq<Features>, Features) -> int

  /** Training is skipped below this many samples. */
  const MinSamples: int := 10

  /** 100.0 in hundredths: the top of every risk scale. */
  const MaxRisk: int := 10000

  /** The feature step used when the parameters carry no `step` key. */
  const DefaultStep: int := 1

  predicate HasLatency(e: Event)
  {
    e.latency > 0
  }

  /** The training row of a stored event: its counts are taken over the whole
      store at training time, from five and thirty minutes before the event's
      own timestamp onward (later events included). */
  function HistoricFeatures(s: Store, e: Event): (f: Features)
    ensures f.latency == e.latency && f.riskScore == e.riskScore && f.step == e.step
    ensures f.velocity == CountSince(s, e.username, e.timestamp - FiveMinutes)
    ensures f.devices == DistinctDevices(s, e.username, e.timestamp - ThirtyMinutes)
    ensures e in s ==> f.velocity >= 1 && f.devices >= 1
  {
    Features(e.latency, e.riskScore, e.step,
             CountSince(s, e.username, e.timestamp - FiveMinutes),
             DistinctDevices(s, e.username, e.timestamp - ThirtyMinutes))
  }

  /** One training row per stored event with a positive latency, in store
      order. */
  function TrainingSet(s: Store): (r: seq<Features>)
    ensures |r| == |Filter(s, HasLatency)|
    ensures forall i :: 0 <= i < |r| ==> r[i] == HistoricFeatures(s, Filter(s, HasLatency)[i])
    ensures forall f :: f in r ==> f.latency > 0
  {
    var rows := Filter(s, HasLatency);
    assert forall i :: 0 <= i < |rows| ==> rows[i] in rows;
    seq(|rows|, i requires 0 <= i < |rows| => HistoricFeatures(s, rows[i]))
  }

  /** The training rows are exactly the training rows of the stored events
      with a positive latency. */
  lemma TrainingRowsOfStore(s: Store)
    ensures forall e :: e in s && HasLatency(e) ==> HistoricFeatures(s, e) in TrainingSet(s)
    ensures forall f :: f in TrainingSet(s) ==> exists e :: e in s && HasLatency(e) && f == HistoricFeatures(s, e)
  {
    var rows := Filter(s, HasLatency);
    var r := TrainingSet(s);
    forall e | e in s && HasLatency(e)
      ensures HistoricFeatures(s, e) in r
    {
      assert e in rows;
      var i :| 0 <= i < |rows| && rows[i] == e;
      assert r[i] == HistoricFeatures(s, e);
    }
    forall f | f in r
      ensures exists e :: e in s && HasLatency(e) && f == HistoricFeatures(s, e)
    {
      var i :| 0 <= i < |r| && r[i] == f;
      assert rows[i] in rows;
    }
  }

  /** Two events of one user, both after `since`, are the user's whole
      window. */
  lemma BothInWindow(a: Event, b: Event, since: int)
    requires a.username == b.username && a.timestamp > since && b.timestamp > since
    ensures UserSince([a, b], a.username, since) == [a, b]
  {
    FilterAppend([], a, e => ByUserSince(e, a.username, since));
    FilterAppend([a], b, e => ByUserSince(e, a.username, since));
    assert [a] + [b] == [a, b];
  }

  /** A training row counts later events too: the subqueries bound the
      window below by the row's own timestamp but not above. An attempt at
      time 0 followed by one at time 1000 from another device gets velocity 2
      and two devices. */
  lemma HistoricRowSeesLater()
    ensures var a := Event("u", 1, "d1", "", 150, "", "", "", 0, true, 0);
            var b := Event("u", 1, "d2", "", 150, "", "", "", 1000, true, 0);
            var f := HistoricFeatures([a, b], a);
            f.velocity == 2 && f.devices == 2
  {
    var a := Event("u", 1, "d1", "", 150, "", "", "", 0, true, 0);
    var b := Event("u", 1, "d2", "", 150, "", "", "", 1000, true, 0);
    BothInWindow(a, b, 0 - FiveMinutes);
    BothInWindow(a, b, 0 - ThirtyMinutes);
    assert (set e | e in [a, b] :: e.deviceId) == {"d1", "d2"};
  }

  /** `train_ml_model`: with fewer than ten samples the current model (or its
      absence) is kept; otherwise it is replaced by a forest fitted to all of
      them. */
  function Train(s: Store, current: Option<Forest>): (m: Option<Forest>)
    ensures |TrainingSet(s)| < MinSamples ==> m == current
    ensures m != current ==> m.Some? && |m.value.samples| >= MinSamples
    ensures m != current ==> forall f :: f in m.value.samples ==> f.latency > 0
    ensures |TrainingSet(s)| >= MinSamples ==> m == Some(Forest(TrainingSet(s)))
  {
    var samples := TrainingSet(s);
    if |samples| < MinSamples then current else Some(Forest(samples))
  }

  /** `max(0, min(100, x))` in hundredths. */
  function Clamp(raw: int): (r: int)
    ensures 0 <= r <= MaxRisk
    ensures 0 <= raw <= MaxRisk ==> r == raw
    ensures raw < 0 ==> r == 0
    ensures raw > MaxRisk ==> r == MaxRisk
  {
    if raw < 0 then 0 else if raw > MaxRisk then MaxRisk else raw
  }

  /** The feature vector of the attempt being scored. Its step is read from
      the parameters, which callers do not normally fill, so it is usually 1
      whatever step is being logged. */
  function ScoringFeatures(s: Store, user: string, p: Params, now: int): (f: Features)
    ensures p.step.None? ==> f.step == DefaultStep
    ensures p.step.Some? ==> f.step == p.step.value
    ensures p.latency.None? ==> f.latency == DefaultLatency
    ensures p.latency.Some? ==> f.latency == p.latency.value
    ensures f.riskScore == Total(Compute(s, user, p, now)) && 0 <= f.riskScore <= MaxTotal
    ensures f.velocity == CountSince(s, user, now - FiveMinutes)
    ensures f.devices == DistinctDevices(s, user, now - ThirtyMinutes)
  {
    Features(p.latency.GetOr(DefaultLatency), Total(Compute(s, user, p, now)), p.step.GetOr(DefaultStep),
             CountSince(s, user, now - FiveMinutes), DistinctDevices(s, user, now - ThirtyMinutes))
  }

  /** `get_ml_risk_score`: the oracle's value clamped to [0, 100]. */
  function MlRisk(m: Forest, s: Store, user: string, p: Params, now: int, score: Oracle): (r: int)
    ensures 0 <= r <= MaxRisk
    ensures var raw := score(m.samples, ScoringFeatures(s, user, p, now));
      (0 <= raw <= MaxRisk ==> r == raw) && (raw < 0 ==> r == 0) && (raw > MaxRisk ==> r == MaxRisk)
  {
    Clamp(score(m.samples, ScoringFeatures(s, user, p, now)))
  }

  /** `round(rule * 0.7 + ml * 0.3, 2)` in hundredths, rounding halves up. */
  function Blend(rule: int, ml: int): (r: int)
    ensures 10 * r - 5 <= 7 * rule + 3 * ml < 10 * r + 5
    ensures rule <= ml ==> rule <= r <= ml
    ensures ml <= rule ==> ml <= r <= rule
  {
    (7 * rule + 3 * ml + 5) / 10
  }
}
