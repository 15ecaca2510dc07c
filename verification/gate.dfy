/** The notification gate of `main`: cooldown and deduplication between runs,
    with the persisted state threaded through as a value. */
module Gate {
  import opened Weather
  import opened Evaluator

  /** The persisted state: when the last notification was sent (0 if never) and
      the summary it carried (`None` for the empty summary). */
  datatype State = State(ts: int, key: Option<DedupKey>)

  /** The state used when nothing has been persisted yet. */
  const Initial: State := State(0, None)

  /** Three hours (pressure_notification.py:31). */
  const NotificationCooldown: int := 3 * 60 * 60

  /** The outcome of one run: whether a send was attempted, the state afterwards,
      and whether that state is written back. */
  datatype Decision = Decision(attempt: bool, next: State, save: bool)

  /** The repeat of the stored condition may be sent again only once strictly
      more than `cooldown` seconds have passed since the last send. */
  predicate CooledDown(st: State, now: int, cooldown: int) {
    now - st.ts > cooldown
  }

  /** The gate (pressure_notification.py:173-195). `sendOk` is the outcome of
      the webhook call, consulted only when a send is attempted. */
  function Decide(alert: Option<Alert>, st: State, now: int, cooldown: int, sendOk: bool): (d: Decision)
    ensures d.attempt <==> alert.Some? && (CooledDown(st, now, cooldown) || st.key != Some(alert.value.Key()))
    ensures alert.Some? && d.attempt && sendOk ==> d.next == State(now, Some(alert.value.Key()))
    ensures alert.Some? && !(d.attempt && sendOk) ==> d.next == st
    ensures alert.None? ==> d.next == State(st.ts, None)
    ensures d.save <==> (d.attempt && sendOk) || (alert.None? && st.key.Some?)
  {
    match alert
    case Some(a) =>
      if CooledDown(st, now, cooldown) || st.key != Some(a.Key()) then
        if sendOk then Decision(true, State(now, Some(a.Key())), true)
        else Decision(true, st, false)
      else Decision(false, st, false)
    case None =>
      if st.key.Some? then Decision(false, State(st.ts, None), true)
      else Decision(false, st, false)
  }

  /** One invocation of the program after the state has been loaded
      (pressure_notification.py:164-197): `fetched` is `None` when the forecast
      request failed. A failed request or an empty response changes nothing; a
      non-empty response without the current reading or the hourly series, or a
      well-formed one on which no rule fires, counts as "no alert" and so clears
      the stored summary; when some rule fires, the evaluator's alert goes
      through the cooldown and summary test of the gate. */
  function Run(fetched: Option<Payload>, st: State, now: int, sendOk: bool): (d: Decision)
    ensures fetched.None? || !Truthy(fetched.value) ==> d == Decision(false, st, false)
    ensures fetched.Some? && Truthy(fetched.value) && !WellFormed(fetched.value) ==>
              d == Decision(false, State(st.ts, None), st.key.Some?)
    ensures d.attempt ==>
              && fetched.Some? && WellFormed(fetched.value)
              && AnyFires(AlertRules, fetched.value.current.value, fetched.value.hourly.value)
    ensures fetched.Some? && WellFormed(fetched.value)
            && !AnyFires(AlertRules, fetched.value.current.value, fetched.value.hourly.value) ==>
              d == Decision(false, State(st.ts, None), st.key.Some?)
    ensures fetched.Some? && WellFormed(fetched.value)
            && AnyFires(AlertRules, fetched.value.current.value, fetched.value.hourly.value) ==>
              var key := Evaluate(AlertRules, fetched.value).value.Key();
              && (d.attempt <==> CooledDown(st, now, NotificationCooldown) || st.key != Some(key))
              && d.next == (if d.attempt && sendOk then State(now, Some(key)) else st)
              && (d.save <==> d.attempt && sendOk)
  {
    if fetched.Some? && Truthy(fetched.value) then
      Decide(Evaluate(AlertRules, fetched.value), st, now, NotificationCooldown, sendOk)
    else Decision(false, st, false)
  }

  /** Writing back is needed exactly for the runs that change the state, except
      that a successful send always writes, even when it stores what was there. */
  lemma SaveCoversEveryChange(alert: Option<Alert>, st: State, now: int, cooldown: int, sendOk: bool)
    ensures var d := Decide(alert, st, now, cooldown, sendOk);
            d.next != st ==> d.save
  {
  }

  /** Clearing is idempotent: a second run without an alert changes nothing and
      writes nothing. */
  lemma ClearIsIdempotent(st: State, now1: int, now2: int, cooldown: int, ok1: bool, ok2: bool)
    ensures
      var d1 := Decide(None, st, now1, cooldown, ok1);
      var d2 := Decide(None, d1.next, now2, cooldown, ok2);
      d2.next == d1.next && !d2.save && d1.next.ts == st.ts
  {
  }

  /** The same condition is not notified twice within the cooldown: after a
      successful send at `t1`, the same key at `t2` with `t2 - t1 <= cooldown`
      is suppressed and leaves the state alone. */
  lemma SameKeySuppressedWithinCooldown(a: Alert, b: Alert, st: State, t1: int, t2: int, cooldown: int, ok2: bool)
    requires a.Key() == b.Key()
    requires t2 - t1 <= cooldown
    requires Decide(Some(a), st, t1, cooldown, true).attempt
    ensures
      var d1 := Decide(Some(a), st, t1, cooldown, true);
      var d2 := Decide(Some(b), d1.next, t2, cooldown, ok2);
      !d2.attempt && d2.next == d1.next
  {
  }

  /** Once the cooldown has passed, the same condition is sent again. */
  lemma SameKeyResentAfterCooldown(a: Alert, b: Alert, st: State, t1: int, t2: int, cooldown: int, ok2: bool)
    requires a.Key() == b.Key()
    requires t2 - t1 > cooldown
    requires Decide(Some(a), st, t1, cooldown, true).attempt
    ensures Decide(Some(b), Decide(Some(a), st, t1, cooldown, true).next, t2, cooldown, ok2).attempt
  {
  }

  /** A changed condition bypasses the cooldown, whatever the timing. */
  lemma ChangedKeyBypassesCooldown(a: Alert, st: State, now: int, cooldown: int, sendOk: bool)
    requires st.key != Some(a.Key())
    ensures Decide(Some(a), st, now, cooldown, sendOk).attempt
  {
  }

  /** After the condition has cleared, its re-occurrence is notified at once,
      even inside the cooldown of the earlier episode. */
  lemma ReoccurrenceAfterClearIsSent(a: Alert, st: State, t1: int, t2: int, cooldown: int, sendOk: bool)
    ensures
      var cleared := Decide(None, st, t1, cooldown, true).next;
      Decide(Some(a), cleared, t2, cooldown, sendOk).attempt
  {
  }

  /** A failed send leaves the state as it was, so the same alert is attempted
      again at any later run. */
  lemma FailedSendIsRetried(a: Alert, b: Alert, st: State, t1: int, t2: int, cooldown: int, ok2: bool)
    requires a.Key() == b.Key()
    requires t1 <= t2
    requires Decide(Some(a), st, t1, cooldown, false).attempt
    ensures
      var d1 := Decide(Some(a), st, t1, cooldown, false);
      d1.next == st && Decide(Some(b), d1.next, t2, cooldown, ok2).attempt
  {
  }

  /** With the configured three-hour cooldown, the stored condition repeated
      exactly three hours after its send is still suppressed; one second later
      it is sent. */
  lemma CooldownBoundaryIsStrict(a: Alert, t: int, sendOk: bool)
    ensures !Decide(Some(a), State(t, Some(a.Key())), t + 10800, NotificationCooldown, sendOk).attempt
    ensures Decide(Some(a), State(t, Some(a.Key())), t + 10801, NotificationCooldown, sendOk).attempt
  {
  }

  /** One run's inputs as seen by the gate. */
  datatype Tick = Tick(alert: Option<Alert>, now: int, sendOk: bool)

  /** The state after a sequence of runs. */
  function Replay(st: State, ticks: seq<Tick>, cooldown: int): State
    decreases |ticks|
  {
    if |ticks| == 0 then st
    else Replay(Decide(ticks[0].alert, st, ticks[0].now, cooldown, ticks[0].sendOk).next, ticks[1..], cooldown)
  }

  /** The times of the successful sends over a sequence of runs. */
  function SentTimes(st: State, ticks: seq<Tick>, cooldown: int): seq<int>
    decreases |ticks|
  {
    if |ticks| == 0 then []
    else
      var d := Decide(ticks[0].alert, st, ticks[0].now, cooldown, ticks[0].sendOk);
      var rest := SentTimes(d.next, ticks[1..], cooldown);
      if d.attempt && ticks[0].sendOk then [ticks[0].now] + rest else rest
  }

  /** Every time is more than `cooldown` after the one before it, the first
      more than `cooldown` after `t0`. */
  predicate SpacedOut(t0: int, times: seq<int>, cooldown: int)
    decreases |times|
  {
    |times| == 0 || (times[0] - t0 > cooldown && SpacedOut(times[0], times[1..], cooldown))
  }

  /** Rate limiting over many runs: while the same condition `k` persists and
      was the last one notified, successful sends of it are spaced by more than
      the cooldown, whatever the timing and outcomes of the runs in between. */
  lemma {:induction false} PersistentConditionIsRateLimited(st: State, ticks: seq<Tick>, cooldown: int, k: DedupKey)
    requires st.key == Some(k)
    requires forall i :: 0 <= i < |ticks| ==> ticks[i].alert.Some? && ticks[i].alert.value.Key() == k
    ensures SpacedOut(st.ts, SentTimes(st, ticks, cooldown), cooldown)
    ensures Replay(st, ticks, cooldown).key == Some(k)
    decreases |ticks|
  {
    if |ticks| > 0 {
      var d := Decide(ticks[0].alert, st, ticks[0].now, cooldown, ticks[0].sendOk);
      assert forall i :: 0 <= i < |ticks[1..]| ==> ticks[1..][i] == ticks[i + 1];
      PersistentConditionIsRateLimited(d.next, ticks[1..], cooldown, k);
    }
  }
}
