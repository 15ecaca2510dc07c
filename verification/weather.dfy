/** The data model of the pressure notifier: forecast readings, the payload
    returned by the forecast service, the fixed rule table, and the alert an
    evaluation produces.

    Units: pressures are whole tenths of a hectopascal (1013.0 hPa is 10130),
    so the one-decimal rendering of a drop used by the dedup key is exact;
    timestamps are whole seconds since the Unix epoch. */
module Weather {

  datatype Option<T> = None | Some(value: T)

  /** One barometric reading: the current observation or one hourly forecast entry. */
  datatype Reading = Reading(dt: int, pressure: int)

  /** The decoded forecast response. `current` and `hourly` are absent when the
      response lacks those keys; `otherFields` records whether it has any other
      key, which matters only for the truthiness of the response as a whole. */
  datatype Payload = Payload(current: Option<Reading>, hourly: Option<seq<Reading>>, otherFields: bool)

  /** A response is falsy exactly when it is an empty mapping. */
  predicate Truthy(p: Payload) {
    p.current.Some? || p.hourly.Some? || p.otherFields
  }

  /** The evaluator needs both the current reading and the hourly series. */
  predicate WellFormed(p: Payload) {
    p.current.Some? && p.hourly.Some?
  }

  /** An alert rule: look `horizon` hours ahead and fire when pressure falls by at
      least `threshold` tenths of hPa. A lower `severity` means a higher priority. */
  datatype Rule = Rule(horizon: nat, threshold: int, level: string, severity: int)

  const SecondsPerHour: int := 3600

  /** The fixed rule table, in its declared order. */
  const AlertRules: seq<Rule> := [
    Rule(3, 30, "急速低下(3時間予測)", 1),
    Rule(12, 100, "顕著な低下(12時間予測)", 1),
    Rule(6, 60, "中程度の低下(6時間予測)", 2),
    Rule(12, 60, "中長期の低下(12時間予測)", 3),
    Rule(24, 50, "日単位の変化に注意(24時間予測)", 4)
  ]

  /** The deduplication summary `<level>_drop_<drop>hPa`, kept as its two parts:
      two summaries are equal exactly when level and (rounded) drop are equal. */
  datatype DedupKey = DedupKey(level: string, drop: int)

  /** A fired rule together with the drop it saw and where the minimum lies. */
  datatype Alert = Alert(rule: Rule, drop: int, current: Reading, minimum: Reading) {
    function Key(): DedupKey {
      DedupKey(rule.level, drop)
    }
  }
}
