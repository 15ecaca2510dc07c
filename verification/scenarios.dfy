/** The fixed rule table applied to the scenarios of the repository's tests
    (test_pressure_rules.py), plus the inclusive boundaries. Pressures are in
    tenths of hPa. */
module Scenarios {
  import opened Weather
  import opened Horizon
  import opened Selection
  import opened Evaluator

  const T0: int := 1749034217
  const CurrentReading: Reading := Reading(T0, 10130)

  /** A response whose current reading is 1013 hPa at `T0`. */
  function Snapshot(hourly: seq<Reading>): Payload {
    Payload(Some(CurrentReading), Some(hourly), false)
  }

  /** 1013 to 1009 hPa within two hours selects the three-hour rule. */
  lemma FastDropSelectsThreeHourRule()
    ensures
      var r := Evaluate(AlertRules, Snapshot([Reading(T0, 10130), Reading(T0 + 3600, 10100), Reading(T0 + 7200, 10090)]));
      r.Some? && r.value.rule == AlertRules[0] && r.value.drop == 40 && r.value.minimum == Reading(T0 + 7200, 10090)
  {
    var hourly := [Reading(T0, 10130), Reading(T0 + 3600, 10100), Reading(T0 + 7200, 10090)];
    forall j | 0 <= j < |AlertRules|
      ensures AlertFor(AlertRules[j], CurrentReading, hourly).minimum == hourly[2]
    {
      MinIsFirstLowest(CurrentReading, hourly, AlertRules[j].horizon, 2);
    }
    ReportsPriorityChoice(AlertRules, Snapshot(hourly), 0);
  }

  /** A 2 hPa fall within two hours fires nothing. */
  lemma SmallDropReportsNothing()
    ensures Evaluate(AlertRules, Snapshot([Reading(T0, 10130), Reading(T0 + 3600, 10120), Reading(T0 + 7200, 10110)])) == None
  {
    var hourly := [Reading(T0, 10130), Reading(T0 + 3600, 10120), Reading(T0 + 7200, 10110)];
    MinIsFirstLowest(CurrentReading, hourly, 3, 2);
    MinIsFirstLowest(CurrentReading, hourly, 6, 2);
    MinIsFirstLowest(CurrentReading, hourly, 12, 2);
    MinIsFirstLowest(CurrentReading, hourly, 24, 2);
    forall j | 0 <= j < |AlertRules|
      ensures !Fires(AlertRules[j], CurrentReading, hourly)
    {
      assert j == 0 || j == 1 || j == 2 || j == 3 || j == 4;
    }
  }

  /** A fall to 995 hPa by hour ten that recovers by hour eleven selects the
      twelve-hour rule of the same severity over the three-hour one: its drop
      (18 hPa, found before the recovery) is larger than the latter's 11 hPa. */
  lemma DeepDropSelectsTwelveHourRule()
    ensures
      var r := Evaluate(AlertRules, Snapshot(DeepDropSeries()));
      r.Some? && r.value.rule == AlertRules[1] && r.value.drop == 180 && r.value.minimum == Reading(T0 + 36000, 9950)
  {
    var hourly := DeepDropSeries();
    DeepDropPerRule();
    var k1 := KeyOf(AlertFor(AlertRules[1], CurrentReading, hourly));
    assert k1 == PriorityKey(1, -180, 12);
    forall j | 0 <= j < |AlertRules|
      ensures !Precedes(KeyOf(AlertFor(AlertRules[j], CurrentReading, hourly)), k1)
      ensures j < 1 ==> Precedes(k1, KeyOf(AlertFor(AlertRules[j], CurrentReading, hourly)))
    {
      assert j == 0 || j == 1 || j == 2 || j == 3 || j == 4;
    }
    assert Fires(AlertRules[1], CurrentReading, hourly);
    assert IsPriorityChoice(AlertRules, CurrentReading, hourly, 1);
    ReportsPriorityChoice(AlertRules, Snapshot(hourly), 1);
  }

  /** What each rule of the table sees on the deep-drop series. */
  lemma DeepDropPerRule()
    ensures AlertFor(AlertRules[0], CurrentReading, DeepDropSeries()).drop == 110
    ensures AlertFor(AlertRules[1], CurrentReading, DeepDropSeries()).minimum == Reading(T0 + 36000, 9950)
    ensures AlertFor(AlertRules[2], CurrentReading, DeepDropSeries()).drop == 140
    ensures AlertFor(AlertRules[3], CurrentReading, DeepDropSeries()).drop == 180
    ensures AlertFor(AlertRules[4], CurrentReading, DeepDropSeries()).drop == 180
  {
    var hourly := DeepDropSeries();
    assert |hourly| == 12;
    assert forall i :: 0 <= i < 12 ==> hourly[i].dt == T0 + 3600 * i;
    assert forall i :: 0 <= i < 12 ==> hourly[10].pressure <= hourly[i].pressure;
    assert forall i :: 0 <= i < 10 ==> hourly[10].pressure < hourly[i].pressure;
    assert forall i :: 0 <= i <= 3 ==> hourly[3].pressure <= hourly[i].pressure;
    assert forall i :: 0 <= i < 3 ==> hourly[3].pressure < hourly[i].pressure;
    assert forall i :: 0 <= i <= 6 ==> hourly[6].pressure <= hourly[i].pressure;
    assert forall i :: 0 <= i < 6 ==> hourly[6].pressure < hourly[i].pressure;
    MinIsFirstLowest(CurrentReading, hourly, 3, 3);
    MinIsFirstLowest(CurrentReading, hourly, 6, 6);
    MinIsFirstLowest(CurrentReading, hourly, 12, 10);
    MinIsFirstLowest(CurrentReading, hourly, 24, 10);
  }

  /** Hourly from now: falling to 995 hPa at +10 h, back to 1013 hPa at +11 h. */
  function DeepDropSeries(): seq<Reading> {
    [ Reading(T0, 10130), Reading(T0 + 3600, 10080), Reading(T0 + 7200, 10030),
      Reading(T0 + 10800, 10020), Reading(T0 + 14400, 10010), Reading(T0 + 18000, 10000),
      Reading(T0 + 21600, 9990), Reading(T0 + 25200, 9980), Reading(T0 + 28800, 9970),
      Reading(T0 + 32400, 9960), Reading(T0 + 36000, 9950), Reading(T0 + 39600, 10130) ]
  }

  /** Entries at +12 h (1008 hPa) and +24 h (1007 hPa) fire only the 24-hour
      rule: the twelve-hour rules see the +12 h entry (inclusive boundary) but
      only a 5 hPa drop. */
  lemma DailyDropSelectsDayRule()
    ensures
      var r := Evaluate(AlertRules, Snapshot([Reading(T0, 10130), Reading(T0 + 3600 * 12, 10080), Reading(T0 + 3600 * 24, 10070)]));
      r.Some? && r.value.rule == AlertRules[4] && r.value.drop == 60
  {
    var hourly := [Reading(T0, 10130), Reading(T0 + 3600 * 12, 10080), Reading(T0 + 3600 * 24, 10070)];
    MinStaysAtCurrent(CurrentReading, hourly, 3);
    MinStaysAtCurrent(CurrentReading, hourly, 6);
    MinIsFirstLowest(CurrentReading, hourly, 12, 1);
    MinIsFirstLowest(CurrentReading, hourly, 24, 2);
    ReportsPriorityChoice(AlertRules, Snapshot(hourly), 4);
  }

  /** An entry exactly three hours ahead is inside the three-hour horizon, and a
      drop exactly at the threshold fires: a 3 hPa fall at +3 h selects the
      three-hour rule. */
  lemma HorizonAndThresholdBoundariesFire()
    ensures
      var r := Evaluate(AlertRules, Snapshot([Reading(T0, 10130), Reading(T0 + 10800, 10100)]));
      r.Some? && r.value.rule == AlertRules[0] && r.value.drop == AlertRules[0].threshold
  {
    var hourly := [Reading(T0, 10130), Reading(T0 + 10800, 10100)];
    forall j | 0 <= j < |AlertRules|
      ensures AlertFor(AlertRules[j], CurrentReading, hourly).drop == 30
    {
      MinIsFirstLowest(CurrentReading, hourly, AlertRules[j].horizon, 1);
    }
    forall j | 0 <= j < |AlertRules| && Fires(AlertRules[j], CurrentReading, hourly)
      ensures j == 0
    {
    }
    ReportsPriorityChoice(AlertRules, Snapshot(hourly), 0);
  }

  /** One second past the three-hour mark the same fall is out of that rule's
      horizon, and too small for every other rule. */
  lemma JustPastHorizonReportsNothing()
    ensures Evaluate(AlertRules, Snapshot([Reading(T0, 10130), Reading(T0 + 10801, 10100)])) == None
  {
    var hourly := [Reading(T0, 10130), Reading(T0 + 10801, 10100)];
    MinStaysAtCurrent(CurrentReading, hourly, 3);
    MinIsFirstLowest(CurrentReading, hourly, 6, 1);
    MinIsFirstLowest(CurrentReading, hourly, 12, 1);
    MinIsFirstLowest(CurrentReading, hourly, 24, 1);
    forall j | 0 <= j < |AlertRules|
      ensures !Fires(AlertRules[j], CurrentReading, hourly)
    {
      assert j == 0 || j == 1 || j == 2 || j == 3 || j == 4;
    }
  }

  /** The scan also stops at index `horizon`: with half-hourly entries, a 5 hPa
      fall two hours ahead sits at index 4, outside the three-hour rule's scan
      although within three hours, so the 24-hour rule is reported instead. */
  lemma IndexBoundLimitsScan()
    ensures
      var r := Evaluate(AlertRules, Snapshot(HalfHourlySeries()));
      r.Some? && r.value.rule == AlertRules[4] && r.value.drop == 50
  {
    var hourly := HalfHourlySeries();
    assert |hourly| == 5;
    MinStaysAtCurrent(CurrentReading, hourly, 3);
    forall j | 1 <= j < |AlertRules|
      ensures AlertFor(AlertRules[j], CurrentReading, hourly).drop == 50
    {
      MinIsFirstLowest(CurrentReading, hourly, AlertRules[j].horizon, 4);
    }
    forall j | 0 <= j < |AlertRules| && Fires(AlertRules[j], CurrentReading, hourly)
      ensures j == 4
    {
    }
    ReportsPriorityChoice(AlertRules, Snapshot(hourly), 4);
  }

  /** Half-hourly entries: level for 1.5 h, then 1008 hPa at +2 h (index 4). */
  function HalfHourlySeries(): seq<Reading> {
    [ Reading(T0, 10130), Reading(T0 + 1800, 10130), Reading(T0 + 3600, 10130),
      Reading(T0 + 5400, 10130), Reading(T0 + 7200, 10080) ]
  }

  /** When the minimum is reached twice, the reported time is the earlier one. */
  lemma TiedMinimumKeepsEarliestTime()
    ensures
      var r := Evaluate(AlertRules, Snapshot([Reading(T0, 10130), Reading(T0 + 3600, 10090), Reading(T0 + 7200, 10090)]));
      r.Some? && r.value.rule == AlertRules[0] && r.value.minimum == Reading(T0 + 3600, 10090)
  {
    var hourly := [Reading(T0, 10130), Reading(T0 + 3600, 10090), Reading(T0 + 7200, 10090)];
    forall j | 0 <= j < |AlertRules|
      ensures AlertFor(AlertRules[j], CurrentReading, hourly).minimum == hourly[1]
    {
      MinIsFirstLowest(CurrentReading, hourly, AlertRules[j].horizon, 1);
    }
    ReportsPriorityChoice(AlertRules, Snapshot(hourly), 0);
  }
}
