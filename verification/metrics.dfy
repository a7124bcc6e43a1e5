/** `get_ueba_metrics`: read-only aggregates over the store, each with its own
    window (one hour, thirty minutes or five minutes, kept as they are). */
module Metrics {
  import opened EventStore
  import opened Ranking
  import opened Signals
  import opened Abandonment

  const RecentLimit: nat := 20
  const TopLimit: nat := 10

  /** `risk_score > 70`, in hundredths. */
  const HighRiskScore: int := 7000

  datatype RecentRow = RecentRow(username: string, step: int, deviceId: string, riskScore: int, timestamp: int)

  datatype RiskyRow = RiskyRow(username: string, avgRisk: real, attempts: nat)

  datatype CountRow = CountRow(username: string, count: nat)

  datatype Snapshot = Snapshot(
    totalAttempts: nat,
    highRiskAttempts: nat,
    activeUsers: nat,
    avgRiskScore: int,
    recentAttempts: seq<RecentRow>,
    riskyUsers: seq<RiskyRow>,
    deviceSwitchers: seq<CountRow>,
    highVelocity: seq<CountRow>,
    abandonmentPatterns: seq<CountRow>)

  predicate NewerThan(e: Event, since: int)
  {
    e.timestamp > since
  }

  /** All events strictly newer than `since`. */
  function Window(s: Store, since: int): (w: seq<Event>)
    ensures forall e :: e in w <==> e in s && NewerThan(e, since)
  {
    Filter(s, e => NewerThan(e, since))
  }

  /** The distinct usernames of `w`, in order of first appearance. */
  function Users(w: seq<Event>): (r: seq<string>)
    ensures forall e :: e in w ==> e.username in r
    ensures forall u :: u in r ==> exists e :: e in w && e.username == u
    ensures Distinct(r)
  {
    if w == [] then []
    else
      var init := w[..|w| - 1];
      var last := w[|w| - 1];
      assert w == init + [last];
      var r := Users(init);
      if last.username in r then r else r + [last.username]
  }

  /** A sequence without repetitions has as many elements as its set. */
  lemma {:induction false} DistinctCardinality(r: seq<string>)
    requires Distinct(r)
    ensures |set u | u in r| == |r|
  {
    if r != [] {
      var init := r[..|r| - 1];
      var last := r[|r| - 1];
      assert r == init + [last];
      DistinctCardinality(init);
      assert last !in init;
      assert (set u | u in r) == (set u | u in init) + {last};
    }
  }

  // ------------------------------------------------------------------ counts

  /** An event of the last hour whose risk is above 70. */
  predicate HighRiskSince(e: Event, since: int)
  {
    NewerThan(e, since) && e.riskScore > HighRiskScore
  }

  /** `COUNT(*)` of events with risk above 70 in the last hour: one per
      stored row, duplicates included. */
  function HighRiskAttempts(s: Store, now: int): (r: nat)
    ensures r == |set i | 0 <= i < |s| && HighRiskSince(s[i], now - OneHour)|
    ensures r <= |Window(s, now - OneHour)|
    ensures r == 0 <==> forall e :: e in s && NewerThan(e, now - OneHour) ==> e.riskScore <= HighRiskScore
  {
    var since := now - OneHour;
    var high := Filter(s, e => HighRiskSince(e, since));
    FilterCount(s, e => HighRiskSince(e, since));
    FilterCount(s, e => NewerThan(e, since));
    assert Positions(s, e => HighRiskSince(e, since)) == set i | 0 <= i < |s| && HighRiskSince(s[i], since);
    SubsetCardinality(Positions(s, e => HighRiskSince(e, since)), Positions(s, e => NewerThan(e, since)));
    assert high != [] ==> high[0] in high;
    |high|
  }

  /** A stored row in the hour with risk above 70 raises the count by one;
      any other row leaves it unchanged. */
  lemma HighRiskAppend(s: Store, e: Event, now: int)
    ensures HighRiskSince(e, now - OneHour) ==> HighRiskAttempts(s + [e], now) == HighRiskAttempts(s, now) + 1
    ensures !HighRiskSince(e, now - OneHour) ==> HighRiskAttempts(s + [e], now) == HighRiskAttempts(s, now)
  {
    FilterAppend(s, e, e' => HighRiskSince(e', now - OneHour));
  }

  /** `COUNT(DISTINCT username)` over the last hour. */
  function ActiveUsers(s: Store, now: int): (r: nat)
    ensures r == |set e | e in s && NewerThan(e, now - OneHour) :: e.username|
  {
    var users := Users(Window(s, now - OneHour));
    DistinctCardinality(users);
    assert (set u | u in users) == (set e | e in s && NewerThan(e, now - OneHour) :: e.username);
    |users|
  }

  function RiskSum(ev: seq<Event>): int
  {
    if ev == [] then 0 else RiskSum(ev[..|ev| - 1]) + ev[|ev| - 1].riskScore
  }

  /** `sum / n` rounded to the nearest integer, halves up. */
  function RoundedMean(sum: int, n: int): (r: int)
    requires n > 0
    ensures n * (2 * r - 1) <= 2 * sum < n * (2 * r + 1)
  {
    (2 * sum + n) / (2 * n)
  }

  /** `round(AVG(risk_score) or 0, 2)` over the last hour, in hundredths. */
  function AvgRiskScore(s: Store, now: int): (r: int)
    ensures Window(s, now - OneHour) == [] ==> r == 0
    ensures var w := Window(s, now - OneHour);
      w != [] ==> |w| * (2 * r - 1) <= 2 * RiskSum(w) < |w| * (2 * r + 1)
  {
    var w := Window(s, now - OneHour);
    if w == [] then 0 else RoundedMean(RiskSum(w), |w|)
  }

  // ------------------------------------------------------------------- lists

  function TimestampKey(e: Event): real
  {
    e.timestamp as real
  }

  function Project(e: Event): RecentRow
  {
    RecentRow(e.username, e.step, e.deviceId, e.riskScore, e.timestamp)
  }

  /** The most recent twenty events, newest first. Any event left out is no
      newer than any event shown. */
  function RecentEvents(s: Store): (r: seq<Event>)
    ensures |r| == Min(RecentLimit, |s|)
    ensures forall i, j :: 0 <= i < j < |r| ==> r[i].timestamp >= r[j].timestamp
    ensures forall x :: x in r ==> x in s
    ensures multiset(r) <= multiset(s)
    ensures forall x, y :: x in multiset(s) - multiset(r) && y in r ==> x.timestamp <= y.timestamp
  {
    TopN(s, TimestampKey, RecentLimit)
  }

  /** `SELECT username, step, device_id, risk_score, timestamp ... ORDER BY
      timestamp DESC LIMIT 20`: the displayed columns of the newest events. */
  function RecentAttempts(s: Store): (r: seq<RecentRow>)
    ensures |r| == Min(RecentLimit, |s|)
    ensures forall i :: 0 <= i < |r| ==> r[i] == Project(RecentEvents(s)[i])
    ensures forall i, j :: 0 <= i < j < |r| ==> r[i].timestamp >= r[j].timestamp
    ensures forall i :: 0 <= i < |r| ==> Shows(s, r[i])
  {
    ProjectRows(s, RecentEvents(s))
  }

  /** `x` displays some stored event. */
  ghost predicate Shows(s: Store, x: RecentRow)
  {
    exists e :: e in s && x == Project(e)
  }

  /** The displayed columns of a newest-first selection of stored events. */
  function ProjectRows(s: Store, top: seq<Event>): (r: seq<RecentRow>)
    requires forall x :: x in top ==> x in s
    requires forall i, j :: 0 <= i < j < |top| ==> top[i].timestamp >= top[j].timestamp
    ensures |r| == |top|
    ensures forall i :: 0 <= i < |r| ==> r[i] == Project(top[i])
    ensures forall i, j :: 0 <= i < j < |r| ==> r[i].timestamp >= r[j].timestamp
    ensures forall i :: 0 <= i < |r| ==> Shows(s, r[i])
  {
    var r := seq(|top|, i requires 0 <= i < |top| => Project(top[i]));
    assert forall i :: 0 <= i < |r| ==> top[i] in top && r[i] == Project(top[i]);
    r
  }

  function CountKey(x: CountRow): real
  {
    x.count as real
  }

  /** One row per user with its measure. */
  function MeasureRows(users: seq<string>, measure: string -> nat): (rows: seq<CountRow>)
    ensures forall x :: x in rows ==> x.username in users && x.count == measure(x.username)
    ensures forall u :: u in users ==> CountRow(u, measure(u)) in rows
    ensures Distinct(users) ==> Distinct(rows)
  {
    if users == [] then []
    else
      var init := users[..|users| - 1];
      var last := users[|users| - 1];
      assert users == init + [last];
      var rows := MeasureRows(init, measure);
      var row := CountRow(last, measure(last));
      assert Distinct(users) ==> Distinct(init) && last !in init && row !in rows;
      rows + [row]
  }

  /** `GROUP BY username HAVING count > threshold ORDER BY count DESC LIMIT 10`,
      for the users `users` and the per-user measure `measure`. A qualifying
      user who is left out counts no more than any user listed. */
  function Leaderboard(users: seq<string>, measure: string -> nat, threshold: int): (r: seq<CountRow>)
    ensures |r| <= TopLimit
    ensures forall i, j :: 0 <= i < j < |r| ==> r[i].count >= r[j].count
    ensures forall x :: x in r ==> x.username in users && x.count == measure(x.username) && x.count > threshold
    ensures forall u, x :: u in users && measure(u) > threshold && Unlisted(r, u) && x in r ==> measure(u) <= x.count
    ensures |r| == TopLimit || forall u :: u in users && measure(u) > threshold ==> CountRow(u, measure(u)) in r
    ensures Distinct(users) ==> forall i, j :: 0 <= i < j < |r| ==> r[i].username != r[j].username
  {
    var having := Having(MeasureRows(users, measure), threshold);
    var top := TopN(having, CountKey, TopLimit);
    LeaderboardSorted(top);
    LeaderboardComplete(users, measure, threshold, having, top);
    LeaderboardFull(users, measure, threshold, having, top);
    LeaderboardDistinct(users, measure, threshold, having, top);
    top
  }

  /** A list shorter than ten holds every qualifying user. */
  lemma LeaderboardFull(users: seq<string>, measure: string -> nat, threshold: int,
                        having: seq<CountRow>, top: seq<CountRow>)
    requires having == Having(MeasureRows(users, measure), threshold)
    requires top == TopN(having, CountKey, TopLimit)
    ensures |top| == TopLimit || forall u :: u in users && measure(u) > threshold ==> CountRow(u, measure(u)) in top
  {
    if |having| <= TopLimit {
      forall u | u in users && measure(u) > threshold
        ensures CountRow(u, measure(u)) in top
      {
        var row := CountRow(u, measure(u));
        assert row in having;
        assert row in multiset(top);
      }
    }
  }

  /** Over distinct users every listed row names a different user. */
  lemma LeaderboardDistinct(users: seq<string>, measure: string -> nat, threshold: int,
                            having: seq<CountRow>, top: seq<CountRow>)
    requires having == Having(MeasureRows(users, measure), threshold)
    requires top == TopN(having, CountKey, TopLimit)
    ensures Distinct(users) ==> forall i, j :: 0 <= i < j < |top| ==> top[i].username != top[j].username
  {
    if Distinct(users) {
      var rows := MeasureRows(users, measure);
      assert forall x :: multiset(top)[x] <= multiset(having)[x] <= multiset(rows)[x];
      SubMultisetDistinct(top, rows);
      forall i, j | 0 <= i < j < |top|
        ensures top[i].username != top[j].username
      {
        assert top[i] in rows && top[j] in rows;
      }
    }
  }

  lemma LeaderboardSorted(top: seq<CountRow>)
    requires SortedDesc(top, CountKey)
    ensures forall i, j :: 0 <= i < j < |top| ==> top[i].count >= top[j].count
  {
    forall i, j | 0 <= i < j < |top|
      ensures top[i].count >= top[j].count
    {
      assert CountKey(top[i]) >= CountKey(top[j]);
    }
  }

  lemma LeaderboardComplete(users: seq<string>, measure: string -> nat, threshold: int,
                            having: seq<CountRow>, top: seq<CountRow>)
    requires having == Having(MeasureRows(users, measure), threshold)
    requires top == TopN(having, CountKey, TopLimit)
    ensures forall u, x :: u in users && measure(u) > threshold && Unlisted(top, u) && x in top ==> measure(u) <= x.count
  {
    NotKeptRanksLower(having, CountKey, TopLimit);
    forall u, x | u in users && measure(u) > threshold && Unlisted(top, u) && x in top
      ensures measure(u) <= x.count
    {
      var row := CountRow(u, measure(u));
      assert row in having;
      assert row !in top;
      assert CountKey(row) <= CountKey(x);
    }
  }

  predicate Unlisted(r: seq<CountRow>, u: string)
  {
    forall x :: x in r ==> x.username != u
  }

  function Having(rows: seq<CountRow>, threshold: int): (r: seq<CountRow>)
    ensures forall x :: x in r <==> x in rows && x.count > threshold
    ensures multiset(r) <= multiset(rows)
  {
    if rows == [] then []
    else
      var init := Having(rows[..|rows| - 1], threshold);
      var last := rows[|rows| - 1];
      assert rows == rows[..|rows| - 1] + [last];
      if last.count > threshold then init + [last] else init
  }

  /** A leaderboard over distinct users that include everyone who can
      qualify: nobody qualifying is missed, unless the list is full and they
      rank no higher than every listed user, and nobody is listed twice. */
  lemma LeaderboardOver(users: seq<string>, measure: string -> nat, threshold: int)
    requires Distinct(users)
    requires forall u :: measure(u) > threshold ==> u in users
    ensures var r := Leaderboard(users, measure, threshold);
      && (forall u, x :: measure(u) > threshold && Unlisted(r, u) && x in r ==> measure(u) <= x.count)
      && (|r| == TopLimit || forall u :: measure(u) > threshold ==> CountRow(u, measure(u)) in r)
      && (forall i, j :: 0 <= i < j < |r| ==> r[i].username != r[j].username)
  {
  }

  /** Distinct devices of `u` in the thirty minutes before `now`. */
  function HalfHourDevices(s: Store, u: string, now: int): nat
  {
    DistinctDevices(s, u, now - ThirtyMinutes)
  }

  /** Attempts of `u` in the five minutes before `now`. */
  function FiveMinuteAttempts(s: Store, u: string, now: int): nat
  {
    CountSince(s, u, now - FiveMinutes)
  }

  /** Everyone with a device in the window is grouped in it. */
  lemma DeviceUsersGrouped(s: Store, now: int)
    ensures forall u :: HalfHourDevices(s, u, now) > 1 ==> u in Users(Window(s, now - ThirtyMinutes))
  {
    ActiveInWindow(s, now - ThirtyMinutes);
  }

  /** Everyone with an attempt in the window is grouped in it. */
  lemma VelocityUsersGrouped(s: Store, now: int)
    ensures forall u :: FiveMinuteAttempts(s, u, now) > 3 ==> u in Users(Window(s, now - FiveMinutes))
  {
    ActiveInWindow(s, now - FiveMinutes);
  }

  /** Everyone with an abandonment in the hour is grouped among the hour's
      abandonments. */
  lemma AbandonersGrouped(s: Store, now: int)
    ensures forall u :: RecentAbandonments(s, u, now) > 1 ==>
      u in Users(Filter(s, e => AnyRecentAbandonment(e, now - OneHour)))
  {
    var w := Filter(s, e => AnyRecentAbandonment(e, now - OneHour));
    forall u | RecentAbandonments(s, u, now) > 1
      ensures u in Users(w)
    {
      var e :| e in s && RecentAbandonmentOf(e, u, now - OneHour);
      assert e in w;
    }
  }

  /** Users with more than one distinct device in the last thirty minutes. */
  function DeviceSwitchers(s: Store, now: int): (r: seq<CountRow>)
    ensures |r| <= TopLimit
    ensures forall i, j :: 0 <= i < j < |r| ==> r[i].count >= r[j].count
    ensures forall x :: x in r ==> x.count == HalfHourDevices(s, x.username, now) && x.count > 1
    ensures forall u, x :: HalfHourDevices(s, u, now) > 1 && Unlisted(r, u) && x in r ==> HalfHourDevices(s, u, now) <= x.count
    ensures |r| == TopLimit || forall u :: HalfHourDevices(s, u, now) > 1 ==> CountRow(u, HalfHourDevices(s, u, now)) in r
    ensures forall i, j :: 0 <= i < j < |r| ==> r[i].username != r[j].username
  {
    var users := Users(Window(s, now - ThirtyMinutes));
    var measure := u => HalfHourDevices(s, u, now);
    DeviceUsersGrouped(s, now);
    LeaderboardOver(users, measure, 1);
    Leaderboard(users, measure, 1)
  }

  /** Users with more than three attempts in the last five minutes. */
  function HighVelocity(s: Store, now: int): (r: seq<CountRow>)
    ensures |r| <= TopLimit
    ensures forall i, j :: 0 <= i < j < |r| ==> r[i].count >= r[j].count
    ensures forall x :: x in r ==> x.count == FiveMinuteAttempts(s, x.username, now) && x.count > 3
    ensures forall u, x :: FiveMinuteAttempts(s, u, now) > 3 && Unlisted(r, u) && x in r ==> FiveMinuteAttempts(s, u, now) <= x.count
    ensures |r| == TopLimit || forall u :: FiveMinuteAttempts(s, u, now) > 3 ==> CountRow(u, FiveMinuteAttempts(s, u, now)) in r
    ensures forall i, j :: 0 <= i < j < |r| ==> r[i].username != r[j].username
  {
    var users := Users(Window(s, now - FiveMinutes));
    var measure := u => FiveMinuteAttempts(s, u, now);
    VelocityUsersGrouped(s, now);
    LeaderboardOver(users, measure, 3);
    Leaderboard(users, measure, 3)
  }

  predicate AnyRecentAbandonment(e: Event, since: int)
  {
    NewerThan(e, since) && Abandoned(e)
  }

  /** Users with more than one abandonment in the last hour. */
  function AbandonmentPatterns(s: Store, now: int): (r: seq<CountRow>)
    ensures |r| <= TopLimit
    ensures forall i, j :: 0 <= i < j < |r| ==> r[i].count >= r[j].count
    ensures forall x :: x in r ==> x.count == RecentAbandonments(s, x.username, now) && x.count > 1
    ensures forall u, x :: RecentAbandonments(s, u, now) > 1 && Unlisted(r, u) && x in r ==> RecentAbandonments(s, u, now) <= x.count
    ensures |r| == TopLimit || forall u :: RecentAbandonments(s, u, now) > 1 ==> CountRow(u, RecentAbandonments(s, u, now)) in r
    ensures forall i, j :: 0 <= i < j < |r| ==> r[i].username != r[j].username
  {
    var users := Users(Filter(s, e => AnyRecentAbandonment(e, now - OneHour)));
    var measure := u => RecentAbandonments(s, u, now);
    AbandonersGrouped(s, now);
    LeaderboardOver(users, measure, 1);
    Leaderboard(users, measure, 1)
  }

  /** The user's mean risk over the events of the last hour: `AVG(risk_score)`
      of the user's group. */
  function MeanRisk(s: Store, u: string, now: int): (r: real)
    ensures CountSince(s, u, now - OneHour) == 0 ==> r == 0.0
    ensures r * CountSince(s, u, now - OneHour) as real == RiskSum(UserSince(s, u, now - OneHour)) as real
  {
    var w := UserSince(s, u, now - OneHour);
    if w == [] then 0.0 else RiskSum(w) as real / |w| as real
  }

  /** Scores within `[lo, hi]` sum to between `n * lo` and `n * hi`. */
  lemma {:induction false} RiskSumBounds(ev: seq<Event>, lo: int, hi: int)
    requires forall e :: e in ev ==> lo <= e.riskScore <= hi
    ensures |ev| * lo <= RiskSum(ev) <= |ev| * hi
  {
    if ev != [] {
      var init := ev[..|ev| - 1];
      var last := ev[|ev| - 1];
      assert ev == init + [last];
      RiskSumBounds(init, lo, hi);
      MulStep(|init|, lo);
      MulStep(|init|, hi);
    }
  }

  lemma MulStep(n: int, k: int)
    ensures (n + 1) * k == n * k + k
  {
  }

  /** Dividing bounds by a positive count: from `lo * n <= m * n <= hi * n`
      to `lo <= m <= hi`. */
  lemma DivideBounds(m: real, n: real, lo: real, hi: real)
    requires n > 0.0
    requires lo * n <= m * n <= hi * n
    ensures lo <= m <= hi
  {
    assert (m - lo) * n >= 0.0 && (hi - m) * n >= 0.0;
  }

  /** A mean of `n` values summing to `sum`, each within `[lo, hi]`, lies
      within `[lo, hi]`. */
  lemma MeanWithin(n: int, sum: int, m: real, lo: int, hi: int)
    requires n > 0
    requires n * lo <= sum <= n * hi
    requires m * n as real == sum as real
    ensures lo as real <= m <= hi as real
  {
    ProductAsReal(n, lo);
    ProductAsReal(n, hi);
    DivideBounds(m, n as real, lo as real, hi as real);
  }

  lemma ScoresWithin(s: Store, u: string, since: int, lo: int, hi: int)
    requires forall e :: e in s && ByUserSince(e, u, since) ==> lo <= e.riskScore <= hi
    ensures forall e :: e in UserSince(s, u, since) ==> lo <= e.riskScore <= hi
  {
  }

  /** The mean lies between the lowest and highest score the user logged in
      the hour. */
  lemma MeanRiskBounded(s: Store, u: string, now: int, lo: int, hi: int)
    requires CountSince(s, u, now - OneHour) > 0
    requires forall e :: e in s && ByUserSince(e, u, now - OneHour) ==> lo <= e.riskScore <= hi
    ensures lo as real <= MeanRisk(s, u, now) <= hi as real
  {
    var w := UserSince(s, u, now - OneHour);
    MeanTimesCount(s, u, now);
    ScoresWithin(s, u, now - OneHour, lo, hi);
    RiskSumBounds(w, lo, hi);
    MeanWithin(|w|, RiskSum(w), MeanRisk(s, u, now), lo, hi);
  }

  lemma MeanTimesCount(s: Store, u: string, now: int)
    ensures |UserSince(s, u, now - OneHour)| == CountSince(s, u, now - OneHour)
    ensures MeanRisk(s, u, now) * |UserSince(s, u, now - OneHour)| as real == RiskSum(UserSince(s, u, now - OneHour)) as real
  {
  }

  function RiskyKey(x: RiskyRow): real
  {
    x.avgRisk
  }

  /** One row per user active in the last hour. */
  function RiskyRows(s: Store, users: seq<string>, now: int): (rows: seq<RiskyRow>)
    ensures forall x :: x in rows ==>
      x.username in users && x.avgRisk == MeanRisk(s, x.username, now) && x.attempts == CountSince(s, x.username, now - OneHour)
    ensures forall u :: u in users ==> RiskyRow(u, MeanRisk(s, u, now), CountSince(s, u, now - OneHour)) in rows
    ensures Distinct(users) ==> Distinct(rows)
  {
    if users == [] then []
    else
      var init := users[..|users| - 1];
      var last := users[|users| - 1];
      assert users == init + [last];
      var rows := RiskyRows(s, init, now);
      var row := RiskyRow(last, MeanRisk(s, last, now), CountSince(s, last, now - OneHour));
      assert Distinct(users) ==> Distinct(init) && last !in init && row !in rows;
      rows + [row]
  }

  /** A user has a row in the last hour's grouping exactly when some of the
      user's events fall in that hour. */
  lemma ActiveInWindow(s: Store, since: int)
    ensures forall u :: u in Users(Window(s, since)) ==> CountSince(s, u, since) > 0
    ensures forall u :: CountSince(s, u, since) > 0 ==> u in Users(Window(s, since))
  {
    var users := Users(Window(s, since));
    forall u
      ensures u in users <==> CountSince(s, u, since) > 0
    {
      var w := UserSince(s, u, since);
      if u in users {
        var e :| e in Window(s, since) && e.username == u;
        assert e in w;
      }
      if |w| > 0 {
        assert w[0] in w;
      }
    }
  }

  /** The ten users with the highest mean risk over the last hour. */
  function RiskyUsers(s: Store, now: int): (r: seq<RiskyRow>)
    ensures |r| <= TopLimit
    ensures forall i, j :: 0 <= i < j < |r| ==> r[i].avgRisk >= r[j].avgRisk
    ensures forall x :: x in r ==>
      x.avgRisk == MeanRisk(s, x.username, now) && x.attempts == CountSince(s, x.username, now - OneHour) && x.attempts > 0
    ensures forall u, x :: CountSince(s, u, now - OneHour) > 0 && (forall y :: y in r ==> y.username != u) && x in r ==>
      MeanRisk(s, u, now) <= x.avgRisk
    ensures |r| == TopLimit ||
      forall u :: CountSince(s, u, now - OneHour) > 0 ==> RiskyRow(u, MeanRisk(s, u, now), CountSince(s, u, now - OneHour)) in r
    ensures forall i, j :: 0 <= i < j < |r| ==> r[i].username != r[j].username
  {
    var users := Users(Window(s, now - OneHour));
    ActiveInWindow(s, now - OneHour);
    var rows := RiskyRows(s, users, now);
    var top := TopN(rows, RiskyKey, TopLimit);
    RiskyComplete(s, now, users, rows, top);
    RiskyFull(s, now, users, rows, top);
    RiskyDistinct(s, now, users, rows, top);
    top
  }

  /** A list shorter than ten holds every user active in the hour. */
  lemma RiskyFull(s: Store, now: int, users: seq<string>, rows: seq<RiskyRow>, top: seq<RiskyRow>)
    requires users == Users(Window(s, now - OneHour))
    requires rows == RiskyRows(s, users, now)
    requires top == TopN(rows, RiskyKey, TopLimit)
    ensures |top| == TopLimit ||
      forall u :: CountSince(s, u, now - OneHour) > 0 ==> RiskyRow(u, MeanRisk(s, u, now), CountSince(s, u, now - OneHour)) in top
  {
    ActiveInWindow(s, now - OneHour);
    if |rows| <= TopLimit {
      forall u | CountSince(s, u, now - OneHour) > 0
        ensures RiskyRow(u, MeanRisk(s, u, now), CountSince(s, u, now - OneHour)) in top
      {
        var row := RiskyRow(u, MeanRisk(s, u, now), CountSince(s, u, now - OneHour));
        assert row in rows;
        assert row in multiset(top);
      }
    }
  }

  /** Every listed row names a different user. */
  lemma RiskyDistinct(s: Store, now: int, users: seq<string>, rows: seq<RiskyRow>, top: seq<RiskyRow>)
    requires users == Users(Window(s, now - OneHour))
    requires rows == RiskyRows(s, users, now)
    requires top == TopN(rows, RiskyKey, TopLimit)
    ensures forall i, j :: 0 <= i < j < |top| ==> top[i].username != top[j].username
  {
    assert forall x :: multiset(top)[x] <= multiset(rows)[x];
    SubMultisetDistinct(top, rows);
    forall i, j | 0 <= i < j < |top|
      ensures top[i].username != top[j].username
    {
      assert top[i] in rows && top[j] in rows;
    }
  }

  lemma RiskyComplete(s: Store, now: int, users: seq<string>, rows: seq<RiskyRow>, top: seq<RiskyRow>)
    requires users == Users(Window(s, now - OneHour))
    requires rows == RiskyRows(s, users, now)
    requires top == TopN(rows, RiskyKey, TopLimit)
    ensures forall u, x :: CountSince(s, u, now - OneHour) > 0 && (forall y :: y in top ==> y.username != u) && x in top ==>
      MeanRisk(s, u, now) <= x.avgRisk
  {
    ActiveInWindow(s, now - OneHour);
    NotKeptRanksLower(rows, RiskyKey, TopLimit);
    forall u, x | CountSince(s, u, now - OneHour) > 0 && (forall y :: y in top ==> y.username != u) && x in top
      ensures MeanRisk(s, u, now) <= x.avgRisk
    {
      var row := RiskyRow(u, MeanRisk(s, u, now), CountSince(s, u, now - OneHour));
      assert row in rows;
      assert row !in top;
      assert RiskyKey(row) <= RiskyKey(x);
    }
  }

  // ---------------------------------------------------------------- snapshot

  function GetMetrics(s: Store, now: int): (m: Snapshot)
    ensures m.totalAttempts == |s|
    ensures m.highRiskAttempts <= m.totalAttempts
    ensures |m.recentAttempts| == Min(RecentLimit, |s|)
    ensures Window(s, now - OneHour) == [] ==> m.avgRiskScore == 0 && m.activeUsers == 0
    ensures |m.riskyUsers| <= TopLimit && |m.deviceSwitchers| <= TopLimit
    ensures |m.highVelocity| <= TopLimit && |m.abandonmentPatterns| <= TopLimit
  {
    Snapshot(
      |s|,
      HighRiskAttempts(s, now),
      ActiveUsers(s, now),
      AvgRiskScore(s, now),
      RecentAttempts(s),
      RiskyUsers(s, now),
      DeviceSwitchers(s, now),
      HighVelocity(s, now),
      AbandonmentPatterns(s, now))
  }

  /** Every user on the high-velocity list would currently draw a velocity
      signal of at least 40. */
  lemma HighVelocityDrawsSignal(s: Store, now: int, x: CountRow)
    requires x in HighVelocity(s, now)
    ensures Velocity(s, x.username, now) >= 40
  {
    VelocityMonotone(4, x.count);
  }

  /** Every device switcher would currently draw a device-switching signal of
      at least 30. */
  lemma DeviceSwitcherDrawsSignal(s: Store, now: int, x: CountRow)
    requires x in DeviceSwitchers(s, now)
    ensures DeviceSwitching(s, x.username, now) >= 30
  {
    DeviceSwitchingMonotone(2, x.count);
  }

  /** Every user with an abandonment pattern draws at least the lowest
      escalation tier from the abandonment calculator. */
  lemma AbandonerEscalates(s: Store, now: int, x: CountRow, lastStep: int)
    requires x in AbandonmentPatterns(s, now)
    ensures CheckAbandonment(s, x.username, lastStep, now) >= BaseRisk(lastStep) + 6
  {
  }
}
