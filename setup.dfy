/** What the program does before any car exists: the fixed road layout, the
    rule-breaker split, the mph-to-segment conversion and the two guards that
    reject a configuration. The source's f32 rounding is modelled as exact
    round-half-up on integers. */
module Setup {
  import opened Roads
  import opened SimChecks

  /** The already-parsed `[simulation]` table of the configuration file. */
  datatype SimulationConfig = SimulationConfig(
    cars: nat,
    ruleBreakers: nat,
    basePoint: bool,
    topSpeed: nat,
    debug: bool)

  /** The two ways a configuration is refused. */
  datatype ConfigError =
    | InvalidRuleBreakers(value: nat)
    | NotEnoughRoad(segmentSpeed: nat)

  datatype Result<T> = Ok(value: T) | Err(error: ConfigError)

  /** What an accepted configuration yields. */
  datatype FleetPlan = FleetPlan(ruleBreakingCars: nat, lawfulCars: nat, topSpeed: nat)

  /** The number of segments of the test road: `test_road.len()`. */
  const TestRoadLength: nat := 13

  /** The thirteen-segment road from the entry to the exit. */
  function TestRoad(): (road: seq<Road>)
    ensures |road| == TestRoadLength
    ensures road[0].roadType == Input && road[12].roadType == Output
    ensures forall i :: 0 < i < 12 ==> GetCollisionInfo(road[i].roadType).baseRisk > 0
  {
    [NewRoad(Input), NewRoad(SchoolZone), NewRoad(PedestrianCrossing), NewRoad(SignalIntersection),
     NewRoad(Roundabout), NewRoad(MergeLane), NewRoad(HighwaySegment), NewRoad(HighwaySegment),
     NewRoad(ConstructionZone), NewRoad(TollBooth), NewRoad(ExitRamp), NewRoad(NoSignalIntersection),
     NewRoad(Output)]
  }

  /** `cars * percent / 100` rounded to the nearest integer, halves upwards. */
  function RoundedShare(cars: nat, percent: nat): (share: nat)
    ensures 100 * share <= cars * percent + 50 < 100 * share + 100
  {
    (cars * percent + 50) / 100
  }

  /** A top speed in mph converted to segments of 10 mph, halves upwards. */
  function SegmentSpeed(mph: nat): (segments: nat)
    ensures 10 * segments <= mph + 5 < 10 * segments + 10
  {
    (mph + 5) / 10
  }

  /** A valid percentage never asks for more rule-breakers than cars, so the
      lawful count cannot underflow. */
  lemma ShareAtMostTotal(cars: nat, percent: nat)
    requires percent <= 100
    ensures RoundedShare(cars, percent) <= cars
  {
    assert cars * percent <= cars * 100 by {
      MulMonotone(cars, percent, 100);
    }
  }

  lemma MulMonotone(a: nat, b: nat, c: nat)
    requires b <= c
    ensures a * b <= a * c
  {
  }

  /** The two guards in source order: the percentage check panics first, then
      the road must be longer than the top speed in segments. */
  function CheckConfig(conf: SimulationConfig, roadLen: nat): (r: Result<FleetPlan>)
    ensures r.Ok? <==> conf.ruleBreakers <= 100 && SegmentSpeed(conf.topSpeed) < roadLen
    ensures conf.ruleBreakers > 100 ==> r == Err(InvalidRuleBreakers(conf.ruleBreakers))
    ensures conf.ruleBreakers <= 100 && SegmentSpeed(conf.topSpeed) >= roadLen ==>
      r == Err(NotEnoughRoad(SegmentSpeed(conf.topSpeed)))
    ensures r.Ok? ==>
      && r.value.ruleBreakingCars + r.value.lawfulCars == conf.cars
      && r.value.ruleBreakingCars == RoundedShare(conf.cars, conf.ruleBreakers)
      && 1 <= r.value.topSpeed + 1 <= roadLen
      && r.value.topSpeed == SegmentSpeed(conf.topSpeed)
  {
    if conf.ruleBreakers > 100 then
      Err(InvalidRuleBreakers(conf.ruleBreakers))
    else
      var ruleBreakingCars := RoundedShare(conf.cars, conf.ruleBreakers);
      assert ruleBreakingCars <= conf.cars by { ShareAtMostTotal(conf.cars, conf.ruleBreakers); }
      var lawfulCars := conf.cars - ruleBreakingCars;
      var topSpeed := SegmentSpeed(conf.topSpeed);
      if topSpeed >= roadLen then Err(NotEnoughRoad(topSpeed))
      else Ok(FleetPlan(ruleBreakingCars, lawfulCars, topSpeed))
  }

  /** On the thirteen-segment road a valid configuration is refused for
      capacity exactly when its top speed is 125 mph or more (13 segments). */
  lemma CapacityRejection(conf: SimulationConfig)
    requires conf.ruleBreakers <= 100
    ensures CheckConfig(conf, TestRoadLength).Err? <==> conf.topSpeed >= 125
    ensures conf.topSpeed >= 125 ==> CheckConfig(conf, TestRoadLength) == Err(NotEnoughRoad(SegmentSpeed(conf.topSpeed)))
  {
  }
}
