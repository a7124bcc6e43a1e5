/** `log_attempt` as a state transition of the engine: score the attempt
    against the store as it stands, optionally blend in the anomaly model,
    append the scored event, and retrain when the store's size reaches a
    multiple of fifty. */
module Engine {
  import opened Wrappers
  import opened EventStore
  import opened Signals
  import opened RuleScore
  import opened Detector

  /** Retraining is attempted whenever the store's size is a multiple of this. */
  const RetrainEvery: int := 50

  /** The engine's state: the store, the current model (absent until the first
      successful training), and whether the learning library is available. */
  datatype State = State(store: Store, model: Option<Forest>, mlAvailable: bool)

  /** The signal breakdown, with the model's contribution when it took part. */
  datatype Breakdown = Breakdown(signals: SignalVector, mlAnomaly: Option<int>)

  datatype Scored = Scored(score: int, breakdown: Breakdown)

  datatype Logged = Logged(next: State, score: int, breakdown: Breakdown)

  /** One call of `log_attempt`: its arguments, the clock when scoring and the
      clock when inserting. */
  datatype Attempt = Attempt(user: string, step: int, params: Params, success: bool, now: int, insertedAt: int)

  /** Construction: the store as found, then one training attempt when the
      learning library is available. */
  function Start(s: Store, mlAvailable: bool): (e: State)
    ensures e.store == s && e.mlAvailable == mlAvailable
    ensures e.model.Some? <==> mlAvailable && |TrainingSet(s)| >= MinSamples
    ensures e.model.Some? ==> e.model.value == Forest(TrainingSet(s))
  {
    State(s, if mlAvailable then Train(s, None) else None, mlAvailable)
  }

  /** Whether the model takes part in scoring. */
  predicate ModelActive(e: State)
  {
    e.mlAvailable && e.model.Some?
  }

  /** The score of an attempt against the current state, before anything is
      stored. */
  function ScoreAttempt(e: State, user: string, p: Params, now: int, score: Oracle): (r: Scored)
    ensures 0 <= r.score <= MaxRisk
    ensures r.breakdown.signals == Compute(e.store, user, p, now)
    ensures !ModelActive(e) ==> r.score == Total(r.breakdown.signals) && r.breakdown.mlAnomaly.None?
    ensures ModelActive(e) ==> r.breakdown.mlAnomaly == Some(MlRisk(e.model.value, e.store, user, p, now, score))
    ensures ModelActive(e) ==> 0 <= r.breakdown.mlAnomaly.value <= MaxRisk
    ensures ModelActive(e) ==>
      10 * r.score - 5 <= 7 * Total(r.breakdown.signals) + 3 * r.breakdown.mlAnomaly.value < 10 * r.score + 5
  {
    var signals := Compute(e.store, user, p, now);
    var rule := Total(signals);
    if ModelActive(e) then
      var ml := MlRisk(e.model.value, e.store, user, p, now, score);
      Scored(Blend(rule, ml), Breakdown(signals, Some(ml)))
    else
      Scored(rule, Breakdown(signals, None))
  }

  /** `total % 50 == 0 and total > 0` on the post-insert count. */
  predicate RetrainDue(count: int)
  {
    count % RetrainEvery == 0 && count > 0
  }

  /** `log_attempt`. */
  function LogAttempt(e: State, a: Attempt, score: Oracle): (out: Logged)
    ensures out.next.mlAvailable == e.mlAvailable
    ensures |out.next.store| == |e.store| + 1
    ensures out.next.store[..|e.store|] == e.store
    ensures out.next.store[|e.store|] == Record(a.user, a.step, a.params, a.success, a.insertedAt, out.score)
    ensures Scored(out.score, out.breakdown) == ScoreAttempt(e, a.user, a.params, a.now, score)
    ensures 0 <= out.score <= MaxRisk
    ensures !(e.mlAvailable && RetrainDue(|out.next.store|)) ==> out.next.model == e.model
    ensures e.mlAvailable && RetrainDue(|out.next.store|) ==> out.next.model == Train(out.next.store, e.model)
  {
    var scored := ScoreAttempt(e, a.user, a.params, a.now, score);
    var store := e.store + [Record(a.user, a.step, a.params, a.success, a.insertedAt, scored.score)];
    assert store[..|e.store|] == e.store;
    var model := if e.mlAvailable && RetrainDue(|store|) then Train(store, e.model) else e.model;
    Logged(State(store, model, e.mlAvailable), scored.score, scored.breakdown)
  }

  /** The stored score depends only on the pre-state and the parameters: the
      logged step, the success flag and the insertion clock play no part. */
  lemma ScoreIgnoresWhatIsStoredAlongside(e: State, a: Attempt, b: Attempt, score: Oracle)
    requires a.user == b.user && a.params == b.params && a.now == b.now
    ensures LogAttempt(e, a, score).score == LogAttempt(e, b, score).score
    ensures LogAttempt(e, a, score).breakdown == LogAttempt(e, b, score).breakdown
  {
  }

  /** Had the attempt been stored before scoring, its own event would have
      raised the five-minute count by one: the exclusion is real. */
  lemma OwnEventExcluded(e: State, a: Attempt, score: Oracle)
    requires a.insertedAt > a.now - FiveMinutes
    ensures CountSince(LogAttempt(e, a, score).next.store, a.user, a.now - FiveMinutes)
      == CountSince(e.store, a.user, a.now - FiveMinutes) + 1
  {
    var out := LogAttempt(e, a, score);
    assert out.next.store == e.store + [out.next.store[|e.store|]];
    CountSinceAppend(e.store, out.next.store[|e.store|], a.user, a.now - FiveMinutes);
  }

  /** A sequence of `log_attempt` calls. */
  function Run(e: State, attempts: seq<Attempt>, score: Oracle): (r: State)
    ensures r.mlAvailable == e.mlAvailable
    ensures |r.store| == |e.store| + |attempts|
    ensures r.store[..|e.store|] == e.store
  {
    if attempts == [] then e
    else
      var mid := Run(e, attempts[..|attempts| - 1], score);
      var r := LogAttempt(mid, attempts[|attempts| - 1], score).next;
      PrefixOfPrefix(r.store, mid.store, e.store);
      r
  }

  lemma PrefixOfPrefix<T>(a: seq<T>, b: seq<T>, c: seq<T>)
    requires |c| <= |b| <= |a|
    requires a[..|b|] == b && b[..|c|] == c
    ensures a[..|c|] == c
  {
    assert a[..|c|] == a[..|b|][..|c|];
  }

  /** The model changes only on a write that brings the store's size to a
      multiple of fifty: a run that crosses no such size keeps it. */
  lemma {:induction false} ModelStableBetweenRetrains(e: State, attempts: seq<Attempt>, score: Oracle)
    requires forall c :: |e.store| < c <= |e.store| + |attempts| ==> c % RetrainEvery != 0
    ensures Run(e, attempts, score).model == e.model
  {
    if attempts != [] {
      ModelStableBetweenRetrains(e, attempts[..|attempts| - 1], score);
    }
  }

  /** Without the learning library the model never changes. */
  lemma {:induction false} NoLibraryNoModel(e: State, attempts: seq<Attempt>, score: Oracle)
    requires !e.mlAvailable
    ensures Run(e, attempts, score).model == e.model
  {
    if attempts != [] {
      NoLibraryNoModel(e, attempts[..|attempts| - 1], score);
    }
  }

  /** Worked examples of the retraining cadence around fifty. */
  lemma RetrainOnlyAtFifty()
    ensures !RetrainDue(49) && RetrainDue(50) && !RetrainDue(51) && !RetrainDue(0)
  {
  }
}
