/** The per-rule scan for the lowest forecast pressure within a horizon. */
module Horizon {
  import opened Weather

  /** Number of hourly entries the scan visits: `min(horizon + 1, |hourly|)`. */
  function ScanLimit(horizon: nat, n: nat): (r: nat)
    ensures r <= n && r <= horizon + 1
    ensures r == n || r == horizon + 1
  {
    if horizon + 1 < n then horizon + 1 else n
  }

  /** Reading `e` lies at most `horizon` hours after the current reading,
      boundary included (pressure_notification.py:99). */
  predicate WithinHours(cur: Reading, e: Reading, horizon: nat) {
    e.dt - cur.dt <= SecondsPerHour * horizon
  }

  /** Entry `i` takes part in the minimum search: its index is within the scan
      bound and it lies at most `horizon` hours after the current reading
      (boundary included). */
  predicate InHorizon(cur: Reading, hourly: seq<Reading>, horizon: nat, i: int)
    requires 0 <= i < |hourly|
  {
    i <= horizon && WithinHours(cur, hourly[i], horizon)
  }

  /** `m` is the minimum among the current reading and the in-horizon entries
      with index below `n`: no such entry is lower; and either nothing is
      strictly lower than the current reading and `m` is that reading, or `m`
      is the first in-horizon entry attaining the minimum. */
  ghost predicate IsMinOver(cur: Reading, hourly: seq<Reading>, horizon: nat, n: int, m: Reading)
    requires 0 <= n <= |hourly|
  {
    && m.pressure <= cur.pressure
    && (forall i :: 0 <= i < n && InHorizon(cur, hourly, horizon, i) ==> m.pressure <= hourly[i].pressure)
    && (|| m == cur
        || exists k ::
             && 0 <= k < n && InHorizon(cur, hourly, horizon, k)
             && hourly[k] == m && m.pressure < cur.pressure
             && forall j :: 0 <= j < k && InHorizon(cur, hourly, horizon, j) ==> m.pressure < hourly[j].pressure)
  }

  /** The loop of the evaluator from index `i` on, with `best` the minimum so far;
      only a strictly lower in-horizon entry replaces it. */
  function Scan(cur: Reading, hourly: seq<Reading>, horizon: nat, i: nat, best: Reading): Reading
    requires i <= ScanLimit(horizon, |hourly|)
    decreases ScanLimit(horizon, |hourly|) - i
  {
    if i == ScanLimit(horizon, |hourly|) then best
    else
      var e := hourly[i];
      var best' := if WithinHours(cur, e, horizon) && e.pressure < best.pressure then e else best;
      Scan(cur, hourly, horizon, i + 1, best')
  }

  /** One step of the scan keeps the prefix minimum. */
  lemma ScanStep(cur: Reading, hourly: seq<Reading>, horizon: nat, i: nat, best: Reading)
    requires i < ScanLimit(horizon, |hourly|)
    requires IsMinOver(cur, hourly, horizon, i, best)
    ensures
      var e := hourly[i];
      IsMinOver(cur, hourly, horizon, i + 1,
                if WithinHours(cur, e, horizon) && e.pressure < best.pressure then e else best)
  {
  }

  /** The scan from a correct prefix minimum ends with the minimum over every
      visited entry. */
  lemma {:induction false} ScanCorrect(cur: Reading, hourly: seq<Reading>, horizon: nat, i: nat, best: Reading)
    requires i <= ScanLimit(horizon, |hourly|)
    requires IsMinOver(cur, hourly, horizon, i, best)
    ensures IsMinOver(cur, hourly, horizon, ScanLimit(horizon, |hourly|), Scan(cur, hourly, horizon, i, best))
    decreases ScanLimit(horizon, |hourly|) - i
  {
    if i < ScanLimit(horizon, |hourly|) {
      var e := hourly[i];
      var best' := if WithinHours(cur, e, horizon) && e.pressure < best.pressure then e else best;
      ScanStep(cur, hourly, horizon, i, best);
      ScanCorrect(cur, hourly, horizon, i + 1, best');
    }
  }

  /** Entries past the scan bound never lie in the horizon, so the minimum over
      the visited entries is the minimum over the whole series. */
  lemma MinOverLimitIsMinOverAll(cur: Reading, hourly: seq<Reading>, horizon: nat, m: Reading)
    requires IsMinOver(cur, hourly, horizon, ScanLimit(horizon, |hourly|), m)
    ensures IsMinOver(cur, hourly, horizon, |hourly|, m)
  {
  }

  /** The lowest pressure the rule looks at, and when it occurs
      (pressure_notification.py:87-102). */
  function HorizonMin(cur: Reading, hourly: seq<Reading>, horizon: nat): (m: Reading)
    ensures IsMinOver(cur, hourly, horizon, |hourly|, m)
  {
    ScanCorrect(cur, hourly, horizon, 0, cur);
    MinOverLimitIsMinOverAll(cur, hourly, horizon, Scan(cur, hourly, horizon, 0, cur));
    Scan(cur, hourly, horizon, 0, cur)
  }

  /** The minimum is the current reading itself exactly when no in-horizon
      entry is strictly below the current pressure. */
  lemma MinIsCurrentIff(cur: Reading, hourly: seq<Reading>, horizon: nat, n: int, m: Reading)
    requires 0 <= n <= |hourly|
    requires IsMinOver(cur, hourly, horizon, n, m)
    ensures m == cur <==> forall i :: 0 <= i < n && InHorizon(cur, hourly, horizon, i) ==> cur.pressure <= hourly[i].pressure
  {
  }

  /** The characterisation of the minimum is unambiguous: it fixes both the
      pressure and the timestamp. */
  lemma MinUnique(cur: Reading, hourly: seq<Reading>, horizon: nat, n: int, m1: Reading, m2: Reading)
    requires 0 <= n <= |hourly|
    requires IsMinOver(cur, hourly, horizon, n, m1)
    requires IsMinOver(cur, hourly, horizon, n, m2)
    ensures m1 == m2
  {
  }

  /** When no in-horizon entry is strictly below the current pressure, the
      minimum stays at the current reading and its timestamp. */
  lemma MinStaysAtCurrent(cur: Reading, hourly: seq<Reading>, horizon: nat)
    requires forall i :: 0 <= i < |hourly| && InHorizon(cur, hourly, horizon, i) ==> cur.pressure <= hourly[i].pressure
    ensures HorizonMin(cur, hourly, horizon) == cur
  {
  }

  /** When entry `k` is the first in-horizon entry at the lowest level and that
      level is below the current pressure, the minimum is entry `k`, with its
      timestamp. */
  lemma MinIsFirstLowest(cur: Reading, hourly: seq<Reading>, horizon: nat, k: int)
    requires 0 <= k < |hourly| && InHorizon(cur, hourly, horizon, k)
    requires hourly[k].pressure < cur.pressure
    requires forall i :: 0 <= i < |hourly| && InHorizon(cur, hourly, horizon, i) ==> hourly[k].pressure <= hourly[i].pressure
    requires forall j :: 0 <= j < k && InHorizon(cur, hourly, horizon, j) ==> hourly[k].pressure < hourly[j].pressure
    ensures HorizonMin(cur, hourly, horizon) == hourly[k]
  {
  }
}
