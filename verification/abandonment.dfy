/** `check_abandonment`: extra risk for a flow that stopped before step 3,
    from the step reached and the user's recent abandonments. */
module Abandonment {
  import opened EventStore
  import opened Thresholds

  /** One escalation tier at most: more than 5, 3 or 1 recent abandonments. */
  const EscalationRungs: seq<Rung> := [Rung(5, 15), Rung(3, 10), Rung(1, 6)]

  /** The largest result: step 2 plus the top tier. */
  const MaxAbandonmentRisk: int := 33

  /** An abandonment event: a failed step 1 or step 2. */
  predicate Abandoned(e: Event)
  {
    e.step < 3 && !e.success
  }

  predicate RecentAbandonmentOf(e: Event, user: string, since: int)
  {
    ByUserSince(e, user, since) && Abandoned(e)
  }

  /** Abandonment events of the user in the last hour. */
  function RecentAbandonments(s: Store, user: string, now: int): (r: nat)
    ensures r == |set i | 0 <= i < |s| && RecentAbandonmentOf(s[i], user, now - OneHour)|
    ensures r <= CountSince(s, user, now - OneHour)
    ensures r == 0 <==> forall e :: e in s ==> !RecentAbandonmentOf(e, user, now - OneHour)
  {
    var since := now - OneHour;
    FilterCount(s, e => RecentAbandonmentOf(e, user, since));
    assert Positions(s, e => RecentAbandonmentOf(e, user, since)) == set i | 0 <= i < |s| && RecentAbandonmentOf(s[i], user, since);
    var abandoned := set i | 0 <= i < |s| && RecentAbandonmentOf(s[i], user, since);
    var recent := set i | 0 <= i < |s| && ByUserSince(s[i], user, since);
    assert abandoned <= recent;
    SubsetCardinality(abandoned, recent);
    var w := Filter(s, e => RecentAbandonmentOf(e, user, since));
    assert w != [] ==> w[0] in w;
    |w|
  }

  /** A subset has no more elements than its superset. */
  lemma SubsetCardinality(a: set<int>, b: set<int>)
    requires a <= b
    ensures |a| <= |b|
  {
    assert b == a + (b - a);
  }

  /** The risk of stopping after `lastStep`: 12 after step 1, 18 after step 2,
      nothing for any other step. */
  function BaseRisk(lastStep: int): (r: int)
    ensures r in {0, 12, 18}
    ensures r > 0 <==> lastStep == 1 || lastStep == 2
    ensures lastStep == 1 ==> r == 12
    ensures lastStep == 2 ==> r == 18
  {
    if lastStep == 1 then 12 else if lastStep == 2 then 18 else 0
  }

  /** The additional risk of an abandoned flow: the base risk plus exactly
      one escalation tier. */
  function CheckAbandonment(s: Store, user: string, lastStep: int, now: int): (r: int)
    ensures 0 <= r <= MaxAbandonmentRisk
    ensures r - BaseRisk(lastStep) in {0, 6, 10, 15}
    ensures RecentAbandonments(s, user, now) <= 1 ==> r == BaseRisk(lastStep)
    ensures RecentAbandonments(s, user, now) > 1 ==> r >= BaseRisk(lastStep) + 6
    ensures var n := RecentAbandonments(s, user, now);
      r == BaseRisk(lastStep) + (if n > 5 then 15 else if n > 3 then 10 else if n > 1 then 6 else 0)
  {
    ClimbBounded(EscalationRungs, RecentAbandonments(s, user, now));
    EscalationLadder(RecentAbandonments(s, user, now));
    BaseRisk(lastStep) + Climb(EscalationRungs, RecentAbandonments(s, user, now))
  }

  /** More than 5, 3 or 1 recent abandonments add 15, 10 or 6; otherwise
      nothing is added. */
  lemma EscalationLadder(n: int)
    ensures Climb(EscalationRungs, n) == (if n > 5 then 15 else if n > 3 then 10 else if n > 1 then 6 else 0)
  {
    assert n > 5 ==> FirstAbove(EscalationRungs, n, 0);
    assert 3 < n <= 5 ==> FirstAbove(EscalationRungs, n, 1);
    assert 1 < n <= 3 ==> FirstAbove(EscalationRungs, n, 2);
  }

  /** More recent abandonments never lower the result. */
  lemma CheckAbandonmentMonotone(s: Store, t: Store, user: string, lastStep: int, now: int)
    requires RecentAbandonments(s, user, now) <= RecentAbandonments(t, user, now)
    ensures CheckAbandonment(s, user, lastStep, now) <= CheckAbandonment(t, user, lastStep, now)
  {
    ClimbMonotone(EscalationRungs, RecentAbandonments(s, user, now), RecentAbandonments(t, user, now));
  }

  /** Worked examples: with at most one abandonment row on record the result
      is 12 after step 1 and 18 after step 2; with two rows, 18 and 24. */
  lemma AbandonmentExamples(s: Store, user: string, now: int)
    ensures RecentAbandonments(s, user, now) <= 1 ==>
      CheckAbandonment(s, user, 1, now) == 12 && CheckAbandonment(s, user, 2, now) == 18
    ensures RecentAbandonments(s, user, now) == 2 ==>
      CheckAbandonment(s, user, 1, now) == 18 && CheckAbandonment(s, user, 2, now) == 24
  {
  }
}
