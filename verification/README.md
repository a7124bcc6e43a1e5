# UEBA risk engine — a Dafny model

This project models the risk-scoring core of the UEBA (user and entity
behaviour analytics) login monitor in `ueba_system.py`. Every login step is
scored from seven behavioural signals: velocity, device switching, network
switching, latency anomaly, request timing, fingerprint change and device
spoofing. The signals are combined with fixed weights and, when an
isolation-forest model is trained, blended 70/30 with that model's anomaly
score. The scored attempt is appended to an event log, and the model is
retrained whenever the log's size reaches a multiple of fifty. The model also
covers flow-abandonment scoring (`check_abandonment`) and the dashboard
aggregates (`get_ueba_metrics`).

Conventions used throughout:

- The `login_attempts` table is a `seq<Event>` (`EventStore.Store`). An
  event's position stands for its autoincrement id.
- The clock is a parameter: `now` for reads and `insertedAt` for the insert
  timestamp.
- Every risk score is an integer number of hundredths. For example, 83.25 is
  `8325` and 100.0 is `MaxRisk = 10000`. The source rounds every stored score
  to two decimals, so no precision is lost.
- Threshold chains (`if n > 10 … elif n > 5 …`) are instances of one
  first-match ladder, `Thresholds.Climb`. One lemma per signal shows that each
  instance equals the source's chain.
- The isolation forest is an `Oracle`: a function from the training samples
  and one feature vector to the raw score (`-score_samples(x) * 100`, in
  hundredths). Nothing is assumed about its value. The forest is fitted with
  a fixed random seed, so a trained model is represented by its samples
  (`Detector.Forest`).

Modules: `Wrappers`, `EventStore` (store, windows, insert record),
`Thresholds`, `Signals` (the seven calculators), `RuleScore` (the weighted
total), `Detector` (training guard, features, clamp, blend), `Engine`
(`log_attempt` as a state transition), `Abandonment`, `Ranking` (the
`ORDER BY … DESC LIMIT n` used by the dashboard queries) and `Metrics`.

Behaviour of the code that the model keeps as written:

- `log_attempt` does not clamp the blended score (ueba_system.py:226-228).
  `Engine.ScoreAttempt` proves it lies in [0, 100] anyway, because both the
  rule total and the clamped model score do.
- `log_attempt` does not validate the step, so `Engine.Attempt.step` is any
  integer.
- `train_ml_model` trains on the stored `risk_score` (ueba_system.py:373),
  which is the blended score once a model exists. `Detector.HistoricFeatures`
  uses the stored score.
- Retraining runs synchronously inside `log_attempt` (ueba_system.py:250-252),
  and `Engine.LogAttempt` models it that way.

## Model

| member | source | states |
|---|---|---|
| EventStore.Record | ueba_system.py:233-241 | the inserted row carries the call's user, step, success flag, clock and final score, and the parameters' device, operator, fingerprint, IP and user agent; a missing latency is stored as 0 |
| EventStore.FilterCount | ueba_system.py:105-108 | a filter keeps one event per satisfying row, so its length is the number of rows matching the condition |
| EventStore.FilterMultiplicity | ueba_system.py:148-150 | a filter keeps every satisfying row as often as it occurs and drops every other row, so duplicate rows still count in sums and averages |
| EventStore.CountSince | ueba_system.py:105-108 | the five-minute count is the number of rows with the user's name and a timestamp strictly after the window start, and it is 0 exactly when there are none |
| EventStore.DistinctDevices | ueba_system.py:120-123 | the count is the number of distinct device ids among the user's rows in the window, and it is 0 exactly when the user has no row there |
| EventStore.DistinctOperators | ueba_system.py:135-138 | the count is the number of distinct non-empty operators among the user's rows in the window, and it is 0 exactly when all of them are empty |
| EventStore.CountSinceAppend | ueba_system.py:105-108 | appending one event raises a user's windowed count by one exactly when the event is that user's and newer than the window start, and leaves it unchanged otherwise |
| EventStore.EmptyOperatorNotCounted | ueba_system.py:135-138 | an event with an empty network operator never changes the distinct-operator count |
| EventStore.NoHistory | ueba_system.py:105-145 | for a user with no events, every windowed count and distinct count is 0 |
| Thresholds.Climb | ueba_system.py:110-117 | the ladder returns the score of the first rung whose bound is exceeded, 0 when none is, and never a value outside the rungs |
| Thresholds.ClimbMonotone | ueba_system.py:110-117 | on a ladder with strictly decreasing bounds and scores, a larger count never gets a smaller score |
| Signals.Velocity | ueba_system.py:105-117 | the signal is 95 for more than 10 attempts in five minutes, 70 for more than 5, 40 for more than 3 and 0 otherwise |
| Signals.VelocityLadder | ueba_system.py:110-117 | more than 10 attempts in five minutes give 95, more than 5 give 70, more than 3 give 40, otherwise 0 |
| Signals.VelocityMonotone | ueba_system.py:110-117 | more attempts never lower the velocity signal |
| Signals.DeviceSwitching | ueba_system.py:120-132 | the signal is 90 for more than 5 distinct devices in thirty minutes, 60 for more than 3, 30 for more than 1 and 0 otherwise |
| Signals.DeviceLadder | ueba_system.py:125-132 | more than 5, 3 or 1 distinct devices in thirty minutes give 90, 60 or 30, otherwise 0 |
| Signals.DeviceSwitchingMonotone | ueba_system.py:125-132 | more distinct devices never lower the signal |
| Signals.NetworkSwitching | ueba_system.py:134-145 | the signal is 85 for more than 3 distinct non-empty operators in thirty minutes, 50 for more than 1 and 0 otherwise |
| Signals.NetworkLadder | ueba_system.py:140-145 | more than 3 or 1 distinct non-empty operators give 85 or 50, otherwise 0 |
| Signals.NetworkSwitchingMonotone | ueba_system.py:140-145 | more distinct operators never lower the signal |
| Signals.LatencySamples | ueba_system.py:148-149 | the averaged rows are exactly the user's events with a positive latency |
| Signals.LatencyAnomaly | ueba_system.py:147-159 | the latency signal is one of 0, 50, 70, and a latency below 50 ms scores 70 whatever the history |
| Signals.LatencyAnomalyMatchesAverage | ueba_system.py:148-159 | the exact integer comparison equals the source's test against the real-valued average (150 ms when there is no history): below 50 gives 70, a deviation over 200 gives 50, otherwise 0 |
| Signals.CrossMultiplied | ueba_system.py:156 | comparing \|c·n − sum\| with 200·n decides the same as comparing \|c − sum/n\| with 200 |
| Signals.TopTwo | ueba_system.py:162-165 | there is no pair exactly when the user has fewer than two events; otherwise the pair is the newest event and the newest of the rest |
| Signals.TopTwoGapUnique | ueba_system.py:162-168 | however ties among the newest timestamps are broken, the gap between the two newest is the same |
| Signals.TimingPattern | ueba_system.py:161-176 | the timing signal is one of 0, 50, 80, and 0 when the user has fewer than two events |
| Signals.TimingFromNewestTwo | ueba_system.py:162-174 | for any two rows that are the user's newest, the signal is 80 for a gap under 1 s, 50 under 5 s, otherwise 0 |
| Signals.TimingAntitone | ueba_system.py:169-174 | a wider gap never raises the timing signal |
| Signals.StoredFingerprints | ueba_system.py:179-180 | the candidate rows are exactly the user's events with a non-empty fingerprint |
| Signals.Latest | ueba_system.py:181-182 | the chosen row has the greatest timestamp, every later-stored row is strictly older, and there is none only for an empty candidate list |
| Signals.LastFingerprint | ueba_system.py:179-182 | the last fingerprint is absent exactly when no non-empty fingerprint is stored for the user, and otherwise belongs to a stored row that no other stored fingerprint of the user is newer than |
| Signals.FingerprintChange | ueba_system.py:184-190 | the signal is 0 or 60, and 60 exactly when the attempt supplies a fingerprint and it differs from the newest stored one; it is 0 for an empty current fingerprint and for a user with no stored fingerprint |
| Signals.FingerprintAgainstNewest | ueba_system.py:179-190 | when the rows tied for newest agree, the signal is 60 exactly when a supplied fingerprint differs from theirs, whatever older rows hold |
| Signals.FingerprintRevertScores | ueba_system.py:179-190 | a user who stored "A" and later "B" and now presents "A" scores 60 |
| Signals.FingerprintAgainstHistory | ueba_system.py:184-190 | a fingerprint matching every stored one scores 0; a non-empty fingerprint matching none of a non-empty history scores 60 |
| Signals.OccursIn | ueba_system.py:194 | the substring test holds exactly when the pattern occurs at some position |
| Signals.DeviceSpoofing | ueba_system.py:192-197 | the signal is 85 exactly when BYPASS, TEST or EMULATOR occurs in the upper-cased device id, otherwise 0 |
| Signals.UpperIdempotent | ueba_system.py:194 | upper-casing twice is upper-casing once |
| Signals.UpperKeepsOccurrence | ueba_system.py:194 | an occurrence of a word in the device id is an occurrence of the upper-cased word in the upper-cased id |
| Signals.SpoofingIgnoresCase | ueba_system.py:192-197 | the spoofing signal does not depend on letter case, and any casing of a marker in the device id scores 85 |
| Signals.Compute | ueba_system.py:104-197 | every one of the seven signals is within its own range |
| Signals.ColdStart | ueba_system.py:104-190 | for a user with no history, velocity, device switching, network switching, timing and fingerprint change are all 0 |
| RuleScore.Total | ueba_system.py:201-214 | for in-range signals the rule total lies in [0, 83.25] |
| RuleScore.PeaksGiveMaxTotal | ueba_system.py:104-214 | every in-range signal lies between 0 and its peak (95, 90, 85, 70, 80, 60, 85), and all peaks together are in range and total exactly 83.25, so the bound is tight |
| RuleScore.WeightsSumToOne | ueba_system.py:202-212 | the weights sum to 1, and the total is 0.25·velocity + 0.20·devices + 0.15·network + 0.15·latency + 0.10·timing + 0.10·fingerprint + 0.05·spoofing |
| RuleScore.SpoofingAddsExactly | ueba_system.py:195-212 | a spoofed device id adds exactly 4.25 to the rule total, other signals fixed |
| RuleScore.ExampleTotal | ueba_system.py:201-214 | velocity 40, device switching 30 and timing 50 total 21.00 |
| RuleScore.TotalMonotone | ueba_system.py:212 | raising any signal never lowers the rule total |
| RuleScore.DotBounds | ueba_system.py:212 | with non-negative weights, the weighted sum is bounded by the weighted sums of the component-wise bounds |
| RuleScore.DotUpdate | ueba_system.py:212 | changing one signal changes the weighted sum by its weight times the change |
| Detector.HistoricFeatures | ueba_system.py:373-379 | a training row copies the event's latency, score and step; its velocity is the user's five-minute count and its device count the user's thirty-minute distinct devices, both measured from the event's own timestamp, and both are at least 1 because they include the event itself |
| Detector.TrainingSet | ueba_system.py:373-381 | the training set has one row per stored event with positive latency, in store order, and the i-th row is the training row of the i-th such event |
| Detector.TrainingRowsOfStore | ueba_system.py:373-381 | a row is in the training set exactly when it is the training row of a stored event with positive latency |
| Detector.HistoricRowSeesLater | ueba_system.py:373-379 | the subqueries are not bounded above by the row's timestamp, so an attempt at time 0 followed by one from another device at time 1000 gets velocity 2 and two devices |
| Detector.Train | ueba_system.py:364-399 | with fewer than 10 samples the current model, or its absence, is kept; with 10 or more, the model is replaced by one fitted to all of them, each with positive latency |
| Detector.Clamp | ueba_system.py:439 | the result is in [0, 100], equals the input inside that range, and is the nearer bound outside it |
| Detector.ScoringFeatures | ueba_system.py:411-432 | the features are the supplied latency (150 when absent), the rule total (within [0, 83.25]), the supplied step (1 when absent), the five-minute attempt count and the thirty-minute distinct-device count |
| Detector.MlRisk | ueba_system.py:401-441 | the model score is the forest's raw score clamped to [0, 100] |
| Detector.Blend | ueba_system.py:226-228 | the blend is 0.7·rule + 0.3·model rounded to the nearest hundredth, and lies between the two inputs |
| Engine.Start | ueba_system.py:20-26 | on construction a model exists exactly when the library is available and the store holds at least 10 training samples, and it is the forest fitted to the store's training set |
| Engine.ScoreAttempt | ueba_system.py:218-228 | the score is in [0, 100]; without an active model it is the rule total with no model entry in the breakdown; with one the breakdown holds the clamped forest score of this attempt's features, and the score is the 70/30 blend of it and the rule total |
| Engine.LogAttempt | ueba_system.py:216-254 | the attempt is scored on the store before the insert; exactly one row is appended, holding that score; earlier rows are unchanged; the model changes only when the new size is a positive multiple of 50, and then becomes the result of training on the new store |
| Engine.ScoreIgnoresWhatIsStoredAlongside | ueba_system.py:216-241 | the returned score and breakdown do not depend on the logged step, success flag or insert time |
| Engine.OwnEventExcluded | ueba_system.py:218-241 | the attempt's own row, inserted after scoring, would have added one to its five-minute count |
| Engine.Run | ueba_system.py:216-254 | a sequence of attempts only appends to the store, one row per attempt |
| Engine.ModelStableBetweenRetrains | ueba_system.py:243-252 | a run that never brings the store's size to a multiple of 50 leaves the model unchanged |
| Engine.NoLibraryNoModel | ueba_system.py:222-252 | without the learning library, no run ever changes the model |
| Engine.RetrainOnlyAtFifty | ueba_system.py:250 | retraining is due at 50 rows but not at 0, 49 or 51 |
| Abandonment.RecentAbandonments | ueba_system.py:339-342 | the count is the number of the user's rows in the last hour with step below 3 and no success; it never exceeds the user's count for the hour, and it is 0 exactly when there is no such row |
| Abandonment.BaseRisk | ueba_system.py:346-352 | the base risk is 12 after step 1, 18 after step 2, otherwise 0 |
| Abandonment.CheckAbandonment | ueba_system.py:331-362 | the result is the base risk plus 15 for more than 5 recent abandonments, 10 for more than 3, 6 for more than 1 and nothing otherwise, so it lies in [0, 33] |
| Abandonment.EscalationLadder | ueba_system.py:355-360 | more than 5, 3 or 1 recent abandonments add 15, 10 or 6, otherwise nothing |
| Abandonment.CheckAbandonmentMonotone | ueba_system.py:355-360 | more recent abandonments never lower the result |
| Abandonment.AbandonmentExamples | ueba_system.py:346-362 | with at most one recent abandonment, stopping after step 2 scores 18; with two it scores 24 |
| Ranking.Insert | ueba_system.py:293-294 | inserting into a descending list keeps it descending and adds exactly the one element |
| Ranking.Sort | ueba_system.py:293-294 | the result is descending and a permutation of the input |
| Ranking.TopN | ueba_system.py:293-294 | the result has min(n, size) rows in descending order drawn from the input; when the input has at most n rows it is a permutation of it; every row left out ranks no higher than every row kept |
| Ranking.DistinctAtMostOnce | ueba_system.py:300 | in a sequence without repetitions every value occurs at most once |
| Ranking.SubMultisetDistinct | ueba_system.py:300 | any sub-multiset of a sequence without repetitions is itself without repetitions, so selecting the top rows never lists a group twice |
| Ranking.NotKeptRanksLower | ueba_system.py:300 | any input row not kept ranks no higher than every kept row |
| Metrics.Window | ueba_system.py:278-279 | the window holds exactly the events strictly newer than its start |
| Metrics.Users | ueba_system.py:283 | the user list has each username of the window once and nothing else |
| Metrics.DistinctCardinality | ueba_system.py:283 | a list without repeats has as many elements as its set |
| Metrics.HighRiskAttempts | ueba_system.py:277-280 | the count is the number of stored rows in the hour with risk above 70, duplicates included; it is at most the hour's row count, and 0 exactly when no such row exists |
| Metrics.HighRiskAppend | ueba_system.py:277-280 | storing a row in the hour with risk above 70 raises the count by exactly one, and storing any other row leaves it unchanged |
| Metrics.ActiveUsers | ueba_system.py:282-285 | the count is the number of distinct usernames among events in the last hour |
| Metrics.RoundedMean | ueba_system.py:290 | the mean is rounded to the nearest hundredth |
| Metrics.AvgRiskScore | ueba_system.py:287-290 | the average is 0 for an empty hour, otherwise the hour's mean score rounded to the nearest hundredth |
| Metrics.RecentEvents | ueba_system.py:292-295 | the recent list holds the min(20, size) newest events, newest first, and no omitted event is newer than a listed one |
| Metrics.RecentAttempts | ueba_system.py:292-295 | min(20, store size) rows, the i-th being the displayed columns of the i-th newest event, newest first |
| Metrics.Having | ueba_system.py:307 | the kept rows are exactly those whose count exceeds the threshold |
| Metrics.MeasureRows | ueba_system.py:305-307 | there is one correct row per user, and every row is correct |
| Metrics.Leaderboard | ueba_system.py:304-326 | at most 10 rows, in descending count, each correct and above the threshold; a list shorter than 10 holds every qualifying user; no unlisted qualifying user outranks a listed one; over distinct users no user is listed twice |
| Metrics.LeaderboardFull | ueba_system.py:304-326 | a list shorter than 10 holds the row of every qualifying user |
| Metrics.LeaderboardDistinct | ueba_system.py:304-326 | over distinct users every listed row names a different user |
| Metrics.LeaderboardOver | ueba_system.py:304-326 | when the candidate list is distinct and contains every user above the threshold, a list shorter than 10 holds every qualifying user and none is listed twice |
| Metrics.DeviceSwitchers | ueba_system.py:304-310 | users with more than one distinct device in thirty minutes, by descending count, at most 10 and none twice; a shorter list holds every such user, and no such user left out outranks a listed one |
| Metrics.HighVelocity | ueba_system.py:312-318 | users with more than 3 attempts in five minutes, by descending count, at most 10 and none twice; a shorter list holds every such user, and no such user left out outranks a listed one |
| Metrics.AbandonmentPatterns | ueba_system.py:320-326 | users with more than one abandonment in the hour, by descending count, at most 10 and none twice; a shorter list holds every such user, and no such user left out outranks a listed one |
| Metrics.MeanRisk | ueba_system.py:298 | the user's mean is 0 for no rows in the hour; otherwise the mean times the hour's row count is the hour's score sum |
| Metrics.RiskSumBounds | ueba_system.py:298 | scores within [lo, hi] sum to between n·lo and n·hi |
| Metrics.MeanWithin | ueba_system.py:298 | a mean of values within [lo, hi] lies within [lo, hi] |
| Metrics.MeanRiskBounded | ueba_system.py:298 | the user's mean lies between the lowest and highest score the user logged in the hour |
| Metrics.ActiveInWindow | ueba_system.py:298-301 | a user is grouped in the hour exactly when the user has an event in it |
| Metrics.RiskyRows | ueba_system.py:298-301 | there is one row per active user, with the user's mean score and attempt count |
| Metrics.RiskyUsers | ueba_system.py:297-302 | at most 10 active users, by descending mean score, each row correct and none twice; a shorter list holds every user active in the hour, and no active user left out has a higher mean than a listed one |
| Metrics.RiskyFull | ueba_system.py:297-302 | a list shorter than 10 holds the row of every user active in the hour |
| Metrics.RiskyDistinct | ueba_system.py:297-302 | every listed row names a different user |
| Metrics.GetMetrics | ueba_system.py:264-329 | the total is the store's size; high-risk attempts do not exceed it; the recent list has min(20, size) rows; an empty hour gives a 0 average and no active users; each of the four ranked lists holds at most 10 rows |
| Metrics.HighVelocityDrawsSignal | ueba_system.py:312-318 | every user on the high-velocity list currently draws a velocity signal of at least 40 |
| Metrics.DeviceSwitcherDrawsSignal | ueba_system.py:304-310 | every user on the device-switcher list currently draws a device-switching signal of at least 30 |
| Metrics.AbandonerEscalates | ueba_system.py:320-326 | every user on the abandonment list gets at least 6 on top of the base risk from `check_abandonment` |

## Left out

- The SQLite database, its schema creation, mock-user seeding, `get_users`
  and all connection handling are left out. The store is an in-memory
  sequence, and a failing database call has no model.
- The wall clock `time.time()` is left out. Each call takes one `now`, so the
  few milliseconds between the nested clock reads of `log_attempt`
  (scoring, the model's own re-scoring, the insert) are not modelled. The
  insert timestamp is a separate parameter.
- The isolation forest's internals (trees, contamination, `predict`) are
  left out. Its scoring is an opaque oracle of the training samples and the
  query, and only its clamping and blending are modelled.
- Floating point is left out. Scores are exact hundredths. `round` in the
  blend and in the average is modelled as round-half-up; Python's
  banker's rounding of binary floats can differ from this on exact ties.
- The SQL `AVG` used for latency is compared exactly rather than in floating
  point. `Signals.LatencyAnomalyMatchesAverage` ties this to the real-valued
  average.
- Metrics.RiskyUsers: the per-user mean is an exact real rather than SQLite's
  floating-point `AVG`, so the order of near-equal means may differ.
- `str.upper()` is modelled for ASCII letters only. Other Unicode case
  mappings are not modelled.
- The database's order among rows with equal sort keys is left out.
  `Signals.Latest` picks the later-inserted row among equal newest
  timestamps. Dashboard lists among equal keys are in an unspecified order,
  and their contracts say nothing about it.
- Training rows are taken in store order. The forest's result is treated as
  depending on the row order only through the oracle.
- Detector.ScoringFeatures: the step feature is read from the parameters
  (`params.get('step', 1)`), as in the code. Callers do not pass a step
  there, so the feature is usually 1 whatever step is logged. This quirk is
  kept as written.
- The module-level `ML_AVAILABLE` import probe is a boolean in the state
  (`Engine.State.mlAvailable`).
- Concurrent writers are not modelled. Every query of `get_ueba_metrics`
  runs separately without a transaction, the dashboard reads the database
  while the simulator inserts, and `log_attempt` scores on one connection
  and inserts on another. The model evaluates every query of a call against
  one snapshot of the store, so relations between fields such as
  `highRiskAttempts <= totalAttempts` hold only when no other writer commits
  between the queries.
- Console output (`print`) and the login simulator and dashboard scripts
  are not part of this model.
