/** The rule evaluator: every rule scans its horizon for the lowest pressure,
    fires when the drop reaches its threshold, and the highest-priority fired
    rule becomes the alert. */
module Evaluator {
  import opened Weather
  import opened Horizon
  import opened Selection

  /** What a rule sees: the horizon minimum and the drop to it
      (pressure_notification.py:87-104). */
  function AlertFor(rule: Rule, cur: Reading, hourly: seq<Reading>): (a: Alert)
    ensures a.rule == rule && a.current == cur
    ensures IsMinOver(cur, hourly, rule.horizon, |hourly|, a.minimum)
    ensures a.drop == cur.pressure - a.minimum.pressure
    ensures a.drop >= 0
  {
    var m := HorizonMin(cur, hourly, rule.horizon);
    Alert(rule, cur.pressure - m.pressure, cur, m)
  }

  /** A rule fires when its drop reaches the threshold, boundary included
      (pressure_notification.py:106). */
  predicate Fires(rule: Rule, cur: Reading, hourly: seq<Reading>) {
    AlertFor(rule, cur, hourly).drop >= rule.threshold
  }

  ghost predicate AnyFires(rules: seq<Rule>, cur: Reading, hourly: seq<Reading>) {
    exists k :: 0 <= k < |rules| && Fires(rules[k], cur, hourly)
  }

  /** The indices of the fired rules from `i` on, in table order: the rules whose
      alerts the evaluator appends to its candidate list. */
  function FiredFrom(rules: seq<Rule>, cur: Reading, hourly: seq<Reading>, i: nat): (ks: seq<int>)
    requires i <= |rules|
    ensures forall x :: x in ks <==> i <= x < |rules| && Fires(rules[x], cur, hourly)
    ensures forall a :: 0 <= a < |ks| ==> i <= ks[a] < |rules|
    ensures forall a, b :: 0 <= a < b < |ks| ==> ks[a] < ks[b]
    decreases |rules| - i
  {
    if i == |rules| then []
    else
      var rest := FiredFrom(rules, cur, hourly, i + 1);
      if Fires(rules[i], cur, hourly) then [i] + rest else rest
  }

  /** Rule `k` is the one the evaluator reports: it fired, no fired rule has a
      smaller key, and every fired rule listed before it has a strictly larger
      key (the sort is stable, so exact ties go to the earlier rule). */
  ghost predicate IsPriorityChoice(rules: seq<Rule>, cur: Reading, hourly: seq<Reading>, k: int) {
    && 0 <= k < |rules|
    && Fires(rules[k], cur, hourly)
    && forall j :: 0 <= j < |rules| && Fires(rules[j], cur, hourly) ==>
         && !Precedes(KeyOf(AlertFor(rules[j], cur, hourly)), KeyOf(AlertFor(rules[k], cur, hourly)))
         && (j < k ==> Precedes(KeyOf(AlertFor(rules[k], cur, hourly)), KeyOf(AlertFor(rules[j], cur, hourly))))
  }

  /** The candidate list: one alert per fired rule, in table order. */
  function Candidates(rules: seq<Rule>, cur: Reading, hourly: seq<Reading>, ks: seq<int>): (cs: seq<Alert>)
    requires forall j :: 0 <= j < |ks| ==> 0 <= ks[j] < |rules|
  {
    seq(|ks|, j requires 0 <= j < |ks| => AlertFor(rules[ks[j]], cur, hourly))
  }

  /** The head of the sorted candidate list is the alert of the priority choice
      among the rules. */
  lemma HeadIsPriorityChoice(rules: seq<Rule>, cur: Reading, hourly: seq<Reading>, q: int)
    requires
      var ks := FiredFrom(rules, cur, hourly, 0);
      IsFirstLeast(Candidates(rules, cur, hourly, ks), q)
    ensures IsPriorityChoice(rules, cur, hourly, FiredFrom(rules, cur, hourly, 0)[q])
  {
    var ks := FiredFrom(rules, cur, hourly, 0);
    var cs := Candidates(rules, cur, hourly, ks);
    var k := ks[q];
    assert k in ks;
    assert cs[q] == AlertFor(rules[k], cur, hourly);
    forall j | 0 <= j < |rules| && Fires(rules[j], cur, hourly)
      ensures !Precedes(KeyOf(AlertFor(rules[j], cur, hourly)), KeyOf(AlertFor(rules[k], cur, hourly)))
      ensures j < k ==> Precedes(KeyOf(AlertFor(rules[k], cur, hourly)), KeyOf(AlertFor(rules[j], cur, hourly)))
    {
      assert j in ks;
      var a :| 0 <= a < |ks| && ks[a] == j;
      assert cs[a] == AlertFor(rules[j], cur, hourly);
      if j < k {
        assert a < q;
      }
    }
  }

  /** The whole evaluation (pressure_notification.py:72-136): `None` for a
      payload without current reading or hourly series, or when no rule fires;
      otherwise the alert of the priority choice among the fired rules. */
  function Evaluate(rules: seq<Rule>, p: Payload): (r: Option<Alert>)
    ensures r.None? <==> !WellFormed(p) || !AnyFires(rules, p.current.value, p.hourly.value)
    ensures r.Some? ==>
              && WellFormed(p)
              && exists k :: && IsPriorityChoice(rules, p.current.value, p.hourly.value, k)
                             && r.value == AlertFor(rules[k], p.current.value, p.hourly.value)
  {
    if !Truthy(p) || p.current.None? || p.hourly.None? then None
    else
      var cur := p.current.value;
      var hourly := p.hourly.value;
      var ks := FiredFrom(rules, cur, hourly, 0);
      var cs := Candidates(rules, cur, hourly, ks);
      if |cs| == 0 then
        assert forall k :: 0 <= k < |rules| ==> k !in ks;
        None
      else
        var q := FirstLeast(cs);
        HeadIsPriorityChoice(rules, cur, hourly, q);
        assert ks[q] in ks;
        Some(cs[q])
  }

  /** The evaluator reports at most one rule: the priority choice is unique. */
  lemma PriorityChoiceUnique(rules: seq<Rule>, cur: Reading, hourly: seq<Reading>, k1: int, k2: int)
    requires IsPriorityChoice(rules, cur, hourly, k1)
    requires IsPriorityChoice(rules, cur, hourly, k2)
    ensures k1 == k2
  {
  }

  /** The priority choice, once identified, is what the evaluator reports. */
  lemma ReportsPriorityChoice(rules: seq<Rule>, p: Payload, k: int)
    requires WellFormed(p)
    requires IsPriorityChoice(rules, p.current.value, p.hourly.value, k)
    ensures Evaluate(rules, p) == Some(AlertFor(rules[k], p.current.value, p.hourly.value))
  {
  }

  /** The reported alert spelled out as the three-level tie-break chain: it has
      the lowest severity among fired rules; among fired rules of that severity
      the largest drop; among those with that drop the shortest horizon. */
  lemma ReportedAlertWinsTieBreaks(rules: seq<Rule>, p: Payload, a: Alert)
    requires Evaluate(rules, p) == Some(a)
    ensures WellFormed(p)
    ensures forall j :: 0 <= j < |rules| && Fires(rules[j], p.current.value, p.hourly.value) ==>
              var b := AlertFor(rules[j], p.current.value, p.hourly.value);
              && a.rule.severity <= b.rule.severity
              && (a.rule.severity == b.rule.severity ==> a.drop >= b.drop)
              && (a.rule.severity == b.rule.severity && a.drop == b.drop ==> a.rule.horizon <= b.rule.horizon)
  {
  }

  /** With an empty hourly series every rule sees a drop of zero, so none with a
      positive threshold fires and nothing is reported. */
  lemma EmptyForecastReportsNothing(rules: seq<Rule>, p: Payload)
    requires WellFormed(p) && p.hourly.value == []
    requires forall j :: 0 <= j < |rules| ==> rules[j].threshold > 0
    ensures Evaluate(rules, p) == None
  {
  }
}
