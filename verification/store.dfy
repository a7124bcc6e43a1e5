/** The event store: the `login_attempts` table as an append-only sequence of
    immutable records, and the windowed queries the engine runs over it.
    The position of an event in the sequence stands for its autoincrement id. */
module EventStore {
  import opened Wrappers

  /** Window lengths in milliseconds. */
  const FiveMinutes: int := 300000
  const ThirtyMinutes: int := 1800000
  const OneHour: int := 3600000

  /** One row of `login_attempts`. `riskScore` is held in integer hundredths
      (2100 stands for 21.0). */
  datatype Event = Event(
    username: string,
    step: int,
    deviceId: string,
    networkOperator: string,
    latency: int,
    fingerprint: string,
    ipAddress: string,
    userAgent: string,
    timestamp: int,
    success: bool,
    riskScore: int)

  /** The caller's parameter dictionary. Every string key the engine reads
      defaults to "" when absent (and an empty fingerprint is as falsy as a
      missing one), so those keys are plain strings. The latency key defaults
      to 150 when scoring but to 0 when stored, so its absence is kept; so is
      that of the `step` key, which the anomaly features read with default 1. */
  datatype Params = Params(
    deviceId: string,
    networkOperator: string,
    latency: Option<int>,
    fingerprint: string,
    ipAddress: string,
    userAgent: string,
    step: Option<int>)

  type Store = seq<Event>

  /** The events of `s` that satisfy `p`, in store order. Equal rows are
      kept as often as they occur, as `COUNT(*)` and `AVG` need. */
  function Filter(s: seq<Event>, p: Event -> bool): (r: seq<Event>)
    ensures |r| <= |s|
    ensures forall e :: e in r ==> e in s && p(e)
    ensures forall e :: e in s && p(e) ==> e in r
  {
    if s == [] then []
    else
      var init := Filter(s[..|s| - 1], p);
      var last := s[|s| - 1];
      assert s == s[..|s| - 1] + [last];
      if p(last) then init + [last] else init
  }

  /** Filtering a store that had one event appended filters the old store
      and then looks at the new event alone. */
  lemma FilterAppend(s: seq<Event>, e: Event, p: Event -> bool)
    ensures Filter(s + [e], p) == Filter(s, p) + (if p(e) then [e] else [])
  {
    assert (s + [e])[..|s + [e]| - 1] == s;
  }

  /** The positions (row ids) of the events satisfying `p`. */
  function Positions(s: seq<Event>, p: Event -> bool): set<int>
  {
    set i | 0 <= i < |s| && p(s[i])
  }

  /** A filter keeps one event per satisfying row: its length is the number
      of rows a `COUNT(*)` with the same condition counts. */
  lemma {:induction false} FilterCount(s: seq<Event>, p: Event -> bool)
    ensures |Filter(s, p)| == |Positions(s, p)|
  {
    if s != [] {
      var init := s[..|s| - 1];
      var last := s[|s| - 1];
      FilterCount(init, p);
      PositionsSnoc(s, p);
      assert |init| !in Positions(init, p);
      assert Filter(s, p) == Filter(init, p) + (if p(last) then [last] else []);
    }
  }

  lemma PositionsSnoc(s: seq<Event>, p: Event -> bool)
    requires s != []
    ensures Positions(s, p) == Positions(s[..|s| - 1], p) + (if p(s[|s| - 1]) then {|s| - 1} else {})
  {
    var init := s[..|s| - 1];
    assert forall i :: 0 <= i < |init| ==> s[i] == init[i];
  }

  /** A filter keeps every satisfying row as often as it occurs and no other
      row: equal rows are not merged, as `COUNT(*)` and `AVG` need. */
  lemma {:induction false} FilterMultiplicity(s: seq<Event>, p: Event -> bool, e: Event)
    ensures multiset(Filter(s, p))[e] == (if p(e) then multiset(s)[e] else 0)
  {
    if s != [] {
      var init := s[..|s| - 1];
      var last := s[|s| - 1];
      assert s == init + [last];
      FilterMultiplicity(init, p, e);
      if p(last) {
        assert Filter(s, p) == Filter(init, p) + [last];
      } else {
        assert Filter(s, p) == Filter(init, p);
      }
    }
  }

  /** A filter that nothing in the store satisfies yields nothing. */
  lemma FilterNone(s: seq<Event>, p: Event -> bool)
    requires forall e :: e in s ==> !p(e)
    ensures Filter(s, p) == []
  {
  }

  predicate ByUser(e: Event, user: string)
  {
    e.username == user
  }

  /** The row condition `username = ? AND timestamp > ?` (strict). */
  predicate ByUserSince(e: Event, user: string, since: int)
  {
    e.username == user && e.timestamp > since
  }

  /** All events of `user`. */
  function UserEvents(s: Store, user: string): seq<Event>
  {
    Filter(s, e => ByUser(e, user))
  }

  /** The events of `user` strictly newer than `since`. */
  function UserSince(s: Store, user: string, since: int): seq<Event>
  {
    Filter(s, e => ByUserSince(e, user, since))
  }

  /** `SELECT COUNT(*) ... WHERE username = ? AND timestamp > ?` */
  function CountSince(s: Store, user: string, since: int): (r: nat)
    ensures r == |set i | 0 <= i < |s| && ByUserSince(s[i], user, since)|
    ensures r == 0 <==> forall e :: e in s ==> !ByUserSince(e, user, since)
  {
    FilterCount(s, e => ByUserSince(e, user, since));
    assert Positions(s, e => ByUserSince(e, user, since)) == set i | 0 <= i < |s| && ByUserSince(s[i], user, since);
    var w := UserSince(s, user, since);
    assert w != [] ==> w[0] in w;
    |w|
  }

  /** `SELECT COUNT(DISTINCT device_id) ... WHERE username = ? AND timestamp > ?` */
  function DistinctDevices(s: Store, user: string, since: int): (r: nat)
    ensures r == |set e | e in s && ByUserSince(e, user, since) :: e.deviceId|
    ensures r == 0 <==> forall e :: e in s ==> !ByUserSince(e, user, since)
  {
    var ids := set e | e in UserSince(s, user, since) :: e.deviceId;
    assert ids == set e | e in s && ByUserSince(e, user, since) :: e.deviceId;
    assert forall e :: e in s && ByUserSince(e, user, since) ==> e.deviceId in ids;
    |ids|
  }

  /** `SELECT COUNT(DISTINCT network_operator) ... AND network_operator != ''` */
  function DistinctOperators(s: Store, user: string, since: int): (r: nat)
    ensures r == |set e | e in s && ByUserSince(e, user, since) && e.networkOperator != "" :: e.networkOperator|
    ensures r == 0 <==> forall e :: e in s && ByUserSince(e, user, since) ==> e.networkOperator == ""
  {
    var ops := set e | e in UserSince(s, user, since) && e.networkOperator != "" :: e.networkOperator;
    assert ops == set e | e in s && ByUserSince(e, user, since) && e.networkOperator != "" :: e.networkOperator;
    assert forall e :: e in s && ByUserSince(e, user, since) && e.networkOperator != "" ==> e.networkOperator in ops;
    |ops|
  }

  /** The event the engine appends for an attempt: every caller-supplied field
      is copied from the parameters with the code's storage defaults, the
      timestamp is the clock at insertion and the score is the one computed
      before insertion. */
  function Record(user: string, step: int, p: Params, success: bool, insertedAt: int, score: int): (e: Event)
    ensures e.username == user && e.step == step && e.success == success
    ensures e.deviceId == p.deviceId && e.networkOperator == p.networkOperator
    ensures e.fingerprint == p.fingerprint && e.ipAddress == p.ipAddress && e.userAgent == p.userAgent
    ensures p.latency.Some? ==> e.latency == p.latency.value
    ensures p.latency.None? ==> e.latency == 0
    ensures e.timestamp == insertedAt && e.riskScore == score
  {
    Event(user, step, p.deviceId, p.networkOperator, p.latency.GetOr(0), p.fingerprint,
          p.ipAddress, p.userAgent, insertedAt, success, score)
  }

  /** An event of `user` inside the window raises that user's windowed count
      by exactly one; an event of anyone else, or outside the window, leaves it
      alone. This is why the engine scores an attempt before storing it. */
  lemma CountSinceAppend(s: Store, e: Event, user: string, since: int)
    ensures ByUserSince(e, user, since) ==> CountSince(s + [e], user, since) == CountSince(s, user, since) + 1
    ensures !ByUserSince(e, user, since) ==> CountSince(s + [e], user, since) == CountSince(s, user, since)
  {
    FilterAppend(s, e, e' => ByUserSince(e', user, since));
  }

  /** An appended event with an empty operator never changes the distinct
      operator count. */
  lemma EmptyOperatorNotCounted(s: Store, e: Event, user: string, since: int)
    requires e.networkOperator == ""
    ensures DistinctOperators(s + [e], user, since) == DistinctOperators(s, user, since)
  {
    FilterAppend(s, e, e' => ByUserSince(e', user, since));
    var before := UserSince(s, user, since);
    var after := UserSince(s + [e], user, since);
    assert (set x | x in after && x.networkOperator != "" :: x.networkOperator)
        == (set x | x in before && x.networkOperator != "" :: x.networkOperator);
  }

  /** A user with no stored events has empty windows of every length. */
  lemma NoHistory(s: Store, user: string, since: int)
    requires forall e :: e in s ==> e.username != user
    ensures UserSince(s, user, since) == []
    ensures UserEvents(s, user) == []
    ensures CountSince(s, user, since) == 0
    ensures DistinctDevices(s, user, since) == 0
    ensures DistinctOperators(s, user, since) == 0
  {
    FilterNone(s, e => ByUserSince(e, user, since));
    FilterNone(s, e => ByUser(e, user));
  }
}
