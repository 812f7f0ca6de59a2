/** The program from an already-parsed configuration to the printed report:
    check the configuration, build and shuffle the fleet, run the tick loop
    on the thirteen-segment road and halve the safe-pass count for display.
    The random sources are inputs: `speeds[k]` is the speed drawn for the car
    with id k, `perm` is the shuffle, `draws` the stream of collision draws. */
module Simulation {
  import opened Roads
  import opened Cars
  import opened Setup
  import opened Fleet
  import opened Pairing
  import opened Motion
  import opened PairCount
  import opened Engine

  /** Why the program stops before the tick loop: a refused configuration, or
      a top speed below 5 mph, whose empty speed range `1..=0` makes the first
      speed draw fail. */
  datatype SimError = Config(reason: ConfigError) | EmptySpeedRange

  /** The two numbers the program prints at the end. */
  datatype Report = Report(safePasses: nat, collisions: nat)

  datatype RunResult = Completed(report: Report) | Failed(error: SimError)

  /** The road index of every car of a new fleet. */
  function StartPositions(n: nat): (pos: seq<nat>)
    ensures |pos| == n && forall i :: 0 <= i < n ==> pos[i] == 0
  {
    seq(n, i => 0)
  }

  /** The tally of Run on the test road for a fleet starting at index 0. */
  function FleetTally(cars: seq<Car>, draws: nat -> Draw): Tally
    requires forall i :: 0 <= i < |cars| ==> cars[i].speed >= 1
  {
    Run(cars, StartPositions(|cars|), TestRoad(), draws, Tally({}, 0, 0), 0).tally
  }

  /** What the program prints for a fleet starting at index 0: the halved
      safe-pass count and the collision count of its tally. */
  function FleetReport(cars: seq<Car>, draws: nat -> Draw): Report
    requires forall i :: 0 <= i < |cars| ==> cars[i].speed >= 1
  {
    var t := FleetTally(cars, draws);
    Report(ReportedSafePasses(t.safePasses), t.collisions)
  }

  /** The shuffled fleet: car `i` is the car with id `perm[i]`, with the speed
      drawn for that id, and lawful. */
  ghost predicate FleetOf(cars: seq<Car>, speeds: seq<nat>, perm: seq<nat>)
  {
    && |cars| == |speeds| == |perm|
    && forall i :: 0 <= i < |cars| ==>
         && cars[i].id == perm[i] && perm[i] < |speeds| && cars[i].speed == speeds[perm[i]] && cars[i].speed >= 1
         && !cars[i].isRuleBreaker
  }

  /** The end of a completed run: every car is past the end of the road and
      the report is the one Run gives for the fleet. */
  ghost predicate Ended(cars: seq<Car>, draws: nat -> Draw, report: Report)
    reads cars
  {
    && (forall i :: 0 <= i < |cars| ==> cars[i].speed >= 1 && cars[i].currentRoadIndex >= TestRoadLength)
    && report == FleetReport(cars, draws)
  }

  /** The whole program. A refused configuration, or an empty speed range with
      cars to build, stops it before any car is created; otherwise `cars` is the shuffled fleet, every car
      lawful and at index 0 at the start and past the end at the finish, and the
      report is the halved safe-pass count and the collision count of Run on
      that fleet. */
  method RunSimulation(conf: SimulationConfig, speeds: seq<nat>, perm: seq<nat>, draws: nat -> Draw)
    returns (r: RunResult, cars: seq<Car>)
    requires |speeds| == conf.cars
    requires forall k :: 0 <= k < |speeds| ==> 1 <= speeds[k] <= SegmentSpeed(conf.topSpeed) || SegmentSpeed(conf.topSpeed) == 0
    requires IsPermutation(perm, conf.cars)
    ensures r.Failed? <==> CheckConfig(conf, TestRoadLength).Err? || (SegmentSpeed(conf.topSpeed) == 0 && conf.cars > 0)
    ensures CheckConfig(conf, TestRoadLength).Err? ==> r == Failed(Config(CheckConfig(conf, TestRoadLength).error))
    ensures CheckConfig(conf, TestRoadLength).Ok? && SegmentSpeed(conf.topSpeed) == 0 && conf.cars > 0 ==>
      r == Failed(EmptySpeedRange)
    ensures r.Failed? ==> cars == []
    ensures r.Completed? ==> FleetOf(cars, speeds, perm) && Ended(cars, draws, r.report)
    ensures r.Completed? ==> r.report.collisions + r.report.safePasses <= Choose2(conf.cars)
    ensures r.Completed? ==>
      FleetOf(cars, speeds, perm) && FleetTally(cars, draws).collisions + FleetTally(cars, draws).safePasses <= Choose2(conf.cars)
  {
    cars := [];
    var checked := CheckConfig(conf, TestRoadLength);
    if checked.Err? {
      return Failed(Config(checked.error)), cars;
    }
    r, cars := RunPlan(checked.value, conf.basePoint, speeds, perm, draws);
  }

  /** Everything after the configuration checks: an empty speed range with
      cars to build stops the program, otherwise it builds, shuffles and runs
      the fleet. */
  method RunPlan(plan: FleetPlan, basePoint: bool, speeds: seq<nat>, perm: seq<nat>, draws: nat -> Draw)
    returns (r: RunResult, cars: seq<Car>)
    requires |speeds| == plan.lawfulCars + plan.ruleBreakingCars
    requires forall k :: 0 <= k < |speeds| ==> 1 <= speeds[k] <= plan.topSpeed || plan.topSpeed == 0
    requires IsPermutation(perm, |speeds|)
    ensures r.Failed? <==> plan.topSpeed == 0 && |speeds| > 0
    ensures r.Failed? ==> r == Failed(EmptySpeedRange)
    ensures r.Failed? ==> cars == []
    ensures r.Completed? ==> FleetOf(cars, speeds, perm) && Ended(cars, draws, r.report)
    ensures r.Completed? ==> r.report.collisions + r.report.safePasses <= Choose2(|speeds|)
    ensures r.Completed? ==>
      FleetOf(cars, speeds, perm) && FleetTally(cars, draws).collisions + FleetTally(cars, draws).safePasses <= Choose2(|speeds|)
  {
    cars := [];
    if plan.topSpeed == 0 && |speeds| > 0 {
      return Failed(EmptySpeedRange), cars;
    }
    cars := StartFleet(plan, basePoint, speeds, perm);
    var report := RunFleet(cars, draws);
    r := Completed(report);
  }

  /** The fleet an accepted configuration builds, shuffled: car `i` of the
      result is the car with id `perm[i]`, with the speed drawn for that id,
      lawful and at index 0. */
  method StartFleet(plan: FleetPlan, basePoint: bool, speeds: seq<nat>, perm: seq<nat>) returns (cars: seq<Car>)
    requires |speeds| == plan.lawfulCars + plan.ruleBreakingCars
    requires forall k :: 0 <= k < |speeds| ==> 1 <= speeds[k] <= plan.topSpeed
    requires IsPermutation(perm, |speeds|)
    ensures FleetOf(cars, speeds, perm) && DistinctIds(cars)
    ensures forall i :: 0 <= i < |cars| ==> fresh(cars[i]) && cars[i].currentRoadIndex == 0
  {
    var fleet := BuildFleet(plan.lawfulCars, plan.ruleBreakingCars, plan.topSpeed, basePoint, speeds);
    cars := Shuffled(fleet, perm);
    forall i | 0 <= i < |cars|
      ensures fresh(cars[i])
      ensures cars[i].id == perm[i] && cars[i].speed == speeds[perm[i]] && cars[i].speed >= 1
      ensures !cars[i].isRuleBreaker && cars[i].currentRoadIndex == 0
    {
      assert cars[i] == fleet[perm[i]];
    }
  }

  /** The tick loop on the thirteen-segment road and the final report, for a
      fleet at index 0 whose ids are distinct and whose speeds are at least one
      segment. */
  method RunFleet(cars: seq<Car>, draws: nat -> Draw) returns (report: Report)
    requires DistinctIds(cars)
    requires forall i :: 0 <= i < |cars| ==> cars[i].speed >= 1 && cars[i].currentRoadIndex == 0
    modifies cars
    ensures Ended(cars, draws, report)
    ensures report.collisions + report.safePasses <= Choose2(|cars|)
    ensures FleetTally(cars, draws).collisions + FleetTally(cars, draws).safePasses <= Choose2(|cars|)
  {
    ghost var pos0 := Positions(cars);
    assert pos0 == StartPositions(|cars|);
    var tick, collisions, safePasses, checkedPairs := Simulate(cars, TestRoad(), draws);
    RunFromStart(cars, pos0, TestRoad(), draws);
    report := Report(ReportedSafePasses(safePasses), collisions);
    assert FleetTally(cars, draws) == Tally(checkedPairs, collisions, safePasses);
    assert report == FleetReport(cars, draws);
    assert forall i :: 0 <= i < |cars| ==> cars[i].speed >= 1 && cars[i].currentRoadIndex >= TestRoadLength;
  }
}
