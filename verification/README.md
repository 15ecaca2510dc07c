# Barometric pressure notifier — Dafny model

The program polls an hourly weather forecast, checks a fixed table of five
pressure-drop rules, and posts at most one notification per run to a webhook.
A cooldown and a deduplication summary stop the same alert from being repeated.
This project models the two pieces of logic in `pressure_notification.py`:

- **the rule evaluator** `check_pressure_changes`. For each rule it scans the
  hourly series up to the rule's horizon for the lowest pressure. The rule fires
  when the drop from the current pressure reaches the rule's threshold. Among
  the fired rules, the one first under the key `(severity, -drop, horizon)` is
  returned (modules `Horizon`, `Selection`, `Evaluator`);
- **the notification gate** written inline in `main`. It is modelled as an
  explicit transition from the optional alert, the persisted state
  `(timestamp, summary)`, the current time, the cooldown and the webhook outcome
  to "attempt a send?", the next state and "write the state back?" (module
  `Gate`).

Module `Weather` holds the data model and the rule table. Module `Scenarios`
restates the scenarios of the repository's unit tests as lemmas about that
table, plus lemmas for the boundary cases.

Units: pressures are whole tenths of a hectopascal, so thresholds are 30, 100,
60, 60 and 50. Timestamps are whole seconds. The dedup summary
`<level>_drop_<drop:.1f>hPa` is kept as the pair `DedupKey(level, drop)`; with
drops in tenths, its one-decimal rounding is exact. The empty summary is
`None`.

Two behaviours of the code are easy to miss and are modelled as written:
- An entry counts for a rule only if its index is at most `horizon_hours`, in
  addition to lying within `horizon_hours` hours of the current reading
  (`Horizon.InHorizon`). `Scenarios.IndexBoundLimitsScan` shows a case where
  the index bound alone changes the outcome.
- `main` skips the whole evaluation for an empty response, so the stored
  summary is kept. A non-empty response that lacks `current` or `hourly`
  makes the evaluator return nothing, and `main` then clears the summary
  (`Gate.Run`).

## Model

| member | source | states |
|---|---|---|
| Horizon.ScanLimit | pressure_notification.py:92 | the scan visits `min(horizon+1, len)` entries: at most the series length, at most horizon+1, and equal to one of the two |
| Horizon.ScanStep | pressure_notification.py:99-102 | one loop step, replacing the minimum only on a strictly lower in-horizon entry, keeps the minimum of the prefix (value and first time reached) |
| Horizon.ScanCorrect | pressure_notification.py:87-102 | by induction, the loop started from the current reading ends with the minimum over the current reading and every visited in-horizon entry |
| Horizon.MinOverLimitIsMinOverAll | pressure_notification.py:92 | entries past the loop bound never lie in the horizon, so the minimum over the visited prefix is the minimum over the whole series |
| Horizon.HorizonMin | pressure_notification.py:87-102 | the result is at most the current pressure and at most every in-horizon entry (index ≤ horizon and at most 3600·horizon seconds ahead, inclusive); it is either the current reading itself or the first in-horizon entry at the lowest level, strictly below the current pressure |
| Horizon.MinIsCurrentIff | pressure_notification.py:87-88 | the minimum stays at the current reading (and its timestamp) exactly when no in-horizon entry is strictly lower, in both directions |
| Horizon.MinUnique | pressure_notification.py:87-102 | any two readings meeting the minimum's characterisation are equal, so it fixes both the lowest pressure and its time |
| Horizon.MinStaysAtCurrent | pressure_notification.py:88 | when nothing in the horizon is strictly lower than the current pressure, the minimum is the current reading and its timestamp |
| Horizon.MinIsFirstLowest | pressure_notification.py:100-102 | when entry k is the first in-horizon entry at the lowest level and that level is below the current pressure, the minimum is entry k, with its time (first minimum wins) |
| Selection.PrecedesIsStrictTotalOrder | pressure_notification.py:123 | the tuple order on `(severity, -drop, horizon)` is irreflexive, transitive and total on distinct keys |
| Selection.FirstLeast | pressure_notification.py:135-136 | the chosen candidate has no candidate with a smaller key, and every earlier candidate has a strictly larger key; this is where a stable sort takes its first element from |
| Selection.FirstLeastUnique | pressure_notification.py:135-136 | at most one position meets that criterion |
| Evaluator.AlertFor | pressure_notification.py:87-104 | a rule's alert carries the horizon minimum and the drop `current - minimum`, which is never negative |
| Evaluator.FiredFrom | pressure_notification.py:83-106 | the list holds exactly the indices of rules whose drop reaches their threshold (`>=`, so drop == threshold fires), in strictly increasing table order |
| Evaluator.HeadIsPriorityChoice | pressure_notification.py:131-136 | the head of the sorted candidates is the alert of a fired rule that no fired rule precedes in key order and that every earlier fired rule follows strictly |
| Evaluator.Evaluate | pressure_notification.py:72-136 | the result is absent iff the response lacks `current` or `hourly`, or no rule fires; otherwise it is the alert of the priority choice among the fired rules |
| Evaluator.PriorityChoiceUnique | pressure_notification.py:135-136 | the priority choice is unique, so exact key ties go to the rule listed first |
| Evaluator.ReportsPriorityChoice | pressure_notification.py:131-136 | once a rule is shown to be the priority choice, it is exactly the alert the evaluator reports |
| Evaluator.ReportedAlertWinsTieBreaks | pressure_notification.py:122-123 | the reported rule has the lowest severity among fired rules; among equal severities the largest drop; among equal drops the shortest horizon |
| Evaluator.EmptyForecastReportsNothing | pressure_notification.py:92-106 | with an empty hourly list every drop is 0, so no positive-threshold rule fires and nothing is reported |
| Gate.Decide | pressure_notification.py:173-195 | with an alert, a send is attempted iff more than the cooldown has passed or the stored summary differs; only a successful send stores `(now, key)`; suppression or failure leaves the state. Without an alert the summary is cleared and the timestamp kept. A write happens iff a send succeeded or a non-empty summary was cleared |
| Gate.Run | pressure_notification.py:164-197 | a failed fetch or an empty response changes nothing; a non-empty response without `current`/`hourly`, or a well-formed one on which no rule fires, clears the summary and keeps the timestamp; when some rule fires, a send is attempted iff the cooldown has passed or the evaluator's summary differs from the stored one, only a successful send stores `(now, summary)` and is written back |
| Gate.SaveCoversEveryChange | pressure_notification.py:184-195 | every run that changes the state writes it back |
| Gate.ClearIsIdempotent | pressure_notification.py:190-195 | clearing keeps the timestamp, and a second run without an alert changes and writes nothing |
| Gate.SameKeySuppressedWithinCooldown | pressure_notification.py:180-189 | after a successful send at t1, the same summary at t2 with t2 - t1 ≤ cooldown is suppressed and the state is unchanged |
| Gate.SameKeyResentAfterCooldown | pressure_notification.py:180-187 | after a successful send at t1, the same summary at t2 with t2 - t1 > cooldown is attempted again |
| Gate.ChangedKeyBypassesCooldown | pressure_notification.py:180-181 | a summary different from the stored one is always attempted, whatever the timing |
| Gate.ReoccurrenceAfterClearIsSent | pressure_notification.py:190-195 | after the condition cleared, any alert is attempted immediately, even within the earlier cooldown |
| Gate.FailedSendIsRetried | pressure_notification.py:184-187 | a failed send leaves the state unchanged, so the same summary is attempted again at any later time |
| Gate.CooldownBoundaryIsStrict | pressure_notification.py:31 | with the 3-hour cooldown, a repeat exactly 10800 s after the send is suppressed and one at 10801 s is attempted |
| Gate.PersistentConditionIsRateLimited | pressure_notification.py:180-187 | over any run sequence where the same summary keeps firing and was the last sent, successful sends are each more than the cooldown after the previous one, and the stored summary stays that one |
| Scenarios.SmallDropReportsNothing | test_pressure_rules.py:5-16 | 1013 → 1011 hPa within two hours: no alert |
| Scenarios.FastDropSelectsThreeHourRule | test_pressure_rules.py:18-30 | 1013 → 1009 hPa within two hours: the three-hour rule, drop 4.0 hPa, minimum at +2 h |
| Scenarios.DeepDropPerRule | test_pressure_rules.py:32-50 | on the deep-drop series the rules see drops of 11, 18, 14, 18 and 18 hPa; the twelve-hour rule's minimum is 995 hPa at +10 h |
| Scenarios.DeepDropSelectsTwelveHourRule | test_pressure_rules.py:32-53 | 995 hPa at +10 h, recovering at +11 h: the twelve-hour/10 hPa rule wins over the three-hour rule of equal severity by its larger drop |
| Scenarios.DailyDropSelectsDayRule | test_pressure_rules.py:55-67 | entries at +12 h (1008) and +24 h (1007): only the 24-hour rule fires |
| Scenarios.HorizonAndThresholdBoundariesFire | pressure_notification.py:99-106 | a 3.0 hPa fall exactly at +3 h fires the three-hour rule: both the horizon and the threshold boundary are inclusive |
| Scenarios.JustPastHorizonReportsNothing | pressure_notification.py:99 | the same fall at +3 h + 1 s is outside the three-hour horizon and nothing fires |
| Scenarios.IndexBoundLimitsScan | pressure_notification.py:92 | a half-hourly 5 hPa fall at index 4 (+2 h) is outside the three-hour rule's scan, so the 24-hour rule is reported |
| Scenarios.TiedMinimumKeepsEarliestTime | pressure_notification.py:100-102 | when the minimum is reached at +1 h and +2 h, the reported time is +1 h |

## Left out

- Network I/O: the forecast request and the webhook POST (pressure_notification.py:62-70, 139-148). A failed fetch is `None` in `Gate.Run`; the webhook outcome is the boolean `sendOk`.
- File I/O: loading and saving the state file and the debug dump of the response (pressure_notification.py:42-60, 169-170). The state is passed as a value; `Gate.Initial` is the default used when the file is missing or unreadable. `Decision.save` says when the program would write it.
- Configuration: reading the environment, and the early return when the API key or webhook URL is set to the empty string or to its `YOUR_…` placeholder (an unset variable falls back to a non-empty default and does not return early), and all logging (pressure_notification.py:8-15, 152-162, 199-200).
- Message text: the JST conversion, "today" against month/day formatting, `strftime`, and `.1f` rendering (pressure_notification.py:81, 107-120). This depends on the clock and the locale. The alert keeps everything the text is built from: level, drop, current reading, and minimum reading with its time.
- Evaluator.Evaluate: uses pressures in tenths of hPa instead of IEEE doubles, so float rounding of the drop and of the `.1f` summary is not modelled. The elapsed-time test `seconds / 3600 <= horizon` is modelled exactly, as `seconds <= 3600 * horizon`.
- Gate.Decide: uses whole seconds instead of the float `time.time()`.
- Evaluator.Evaluate: a `current` without `pressure`/`dt` raises `KeyError` in the program, and so does an hourly entry without `dt` at an index the scan visits (at most 24), or without `pressure` when it lies inside some rule's time horizon. The model's types always carry these fields, so that failure is not represented.
- Evaluator.Evaluate: converting a timestamp with `datetime.fromtimestamp` (pressure_notification.py:94, 99, 107) raises for values outside the platform's or `datetime`'s range (beyond year 9999, for one), so the program fails instead of answering. The model accepts every integer timestamp; that range limit is platform-dependent and is not modelled.
- Weather.DedupKey: is a pair, not a string. Two different (level, drop) pairs that render to the same string would collide in the program. That cannot happen with the table's fixed levels.
- Repeatable evaluation: the evaluator is a pure function, so two evaluations of the same response agree by construction. No lemma states this.
