/** The tick loop of the simulation. Each loop of the source is a method here,
    and each method is proved equal to a reference function over a snapshot
    of the road indices: CarsOnSegment to OnSegment, CheckPairs to
    CheckNeighbours, CheckAllSegments to CheckSegments, MoveCars to Moved and
    Simulate to Run. The lemmas about Run carry what the loop promises:
    consistent counters, each pair evaluated once, at most C(n, 2)
    evaluations, and termination within ceil(len / slowest speed) ticks. */
module Engine {
  import opened Roads
  import opened Cars
  import opened SimChecks
  import opened Fleet
  import opened Segments
  import opened Pairing
  import opened Motion
  import opened PairCount

  /** What a run ends with: the tally, the number of ticks and the final indices. */
  datatype Outcome = Outcome(tally: Tally, ticks: nat, positions: seq<nat>)

  /** The pair evaluation of every tick in turn, starting from tally `t`;
      `ps[k]` is the snapshot of indices the k-th tick sees. */
  function Tallied(cars: seq<Car>, ps: seq<seq<nat>>, road: seq<Road>, draws: nat -> Draw, t: Tally): Tally
    requires forall k :: 0 <= k < |ps| ==> |ps[k]| == |cars|
    decreases |ps|
  {
    if |ps| == 0 then t
    else Tallied(cars, ps[1..], road, draws, CheckSegments(cars, ps[0], road, 0, draws, t))
  }

  /** The whole tick loop from a state reached after `tick` ticks: every tick
      evaluates the neighbour pairs of every segment and then moves the cars,
      and the loop stops after the tick whose move takes the last car past the
      end. It runs at least one more tick and ends with every car past the end. */
  function Run(cars: seq<Car>, pos: seq<nat>, road: seq<Road>, draws: nat -> Draw, t: Tally, tick: nat): (o: Outcome)
    requires InMotion(cars, pos, |road|, tick)
    ensures o.ticks > tick
    ensures |o.positions| == |cars| && AllFinished(o.positions, |road|)
  {
    var ps := Trajectory(cars, pos, |road|, tick);
    TrajectoryFinishes(cars, pos, |road|, tick);
    Outcome(Tallied(cars, ps, road, draws, t), tick + |ps|, Moved(cars, ps[|ps| - 1], |road|))
  }

  /** A tick after which some car is still on the road: the loop goes on from
      the moved indices with the tally this tick produced. */
  lemma RunStep(cars: seq<Car>, pos: seq<nat>, road: seq<Road>, draws: nat -> Draw, t: Tally, tick: nat)
    requires InMotion(cars, pos, |road|, tick)
    requires !AllFinished(Moved(cars, pos, |road|), |road|)
    ensures tick + 1 < |road| && InMotion(cars, Moved(cars, pos, |road|), |road|, tick + 1)
    ensures Run(cars, pos, road, draws, t, tick)
      == Run(cars, Moved(cars, pos, |road|), road, draws, CheckSegments(cars, pos, road, 0, draws, t), tick + 1)
  {
    var moved := Moved(cars, pos, |road|);
    TrajectoryStep(cars, pos, |road|, tick);
    var rest := Trajectory(cars, moved, |road|, tick + 1);
    RunUnfold(cars, pos, road, draws, t, tick);
    RunUnfold(cars, moved, road, draws, CheckSegments(cars, pos, road, 0, draws, t), tick + 1);
    TalliedCons(cars, pos, rest, road, draws, t);
    assert ([pos] + rest)[|rest|] == rest[|rest| - 1];
  }

  /** Run spelled out: the fold over the trajectory, its length and the move
      after its last snapshot. */
  lemma RunUnfold(cars: seq<Car>, pos: seq<nat>, road: seq<Road>, draws: nat -> Draw, t: Tally, tick: nat)
    requires InMotion(cars, pos, |road|, tick)
    ensures var ps := Trajectory(cars, pos, |road|, tick);
      Run(cars, pos, road, draws, t, tick)
        == Outcome(Tallied(cars, ps, road, draws, t), tick + |ps|, Moved(cars, ps[|ps| - 1], |road|))
  {
  }

  /** Folding a trajectory that starts with `p` evaluates `p` first. */
  lemma TalliedCons(cars: seq<Car>, p: seq<nat>, rest: seq<seq<nat>>, road: seq<Road>, draws: nat -> Draw, t: Tally)
    requires |p| == |cars| && forall k :: 0 <= k < |rest| ==> |rest[k]| == |cars|
    ensures Tallied(cars, [p] + rest, road, draws, t)
      == Tallied(cars, rest, road, draws, CheckSegments(cars, p, road, 0, draws, t))
  {
    assert ([p] + rest)[1..] == rest;
  }

  /** The tick whose move takes every car past the end is the last one. */
  lemma RunEnd(cars: seq<Car>, pos: seq<nat>, road: seq<Road>, draws: nat -> Draw, t: Tally, tick: nat)
    requires InMotion(cars, pos, |road|, tick)
    requires AllFinished(Moved(cars, pos, |road|), |road|)
    ensures Run(cars, pos, road, draws, t, tick)
      == Outcome(CheckSegments(cars, pos, road, 0, draws, t), tick + 1, Moved(cars, pos, |road|))
  {
    TrajectoryEnd(cars, pos, |road|, tick);
    assert [pos][1..] == [];
    assert Tallied(cars, [pos], road, draws, t) == CheckSegments(cars, pos, road, 0, draws, t);
  }

  /** The keys of the neighbour pairs of every tick in `ps`. */
  ghost function RunKeys(cars: seq<Car>, ps: seq<seq<nat>>, roadLen: nat): set<Key>
    requires forall k :: 0 <= k < |ps| ==> |ps[k]| == |cars|
    decreases |ps|
  {
    if |ps| == 0 then {} else TickKeys(cars, ps[0], roadLen, 0) + RunKeys(cars, ps[1..], roadLen)
  }

  /** Evaluating ticks keeps the tally consistent and only grows it. */
  lemma {:induction false} TalliedKeeps(cars: seq<Car>, ps: seq<seq<nat>>, road: seq<Road>, draws: nat -> Draw, t: Tally)
    requires forall k :: 0 <= k < |ps| ==> |ps[k]| == |cars|
    requires DistinctIds(cars) && Consistent(t, Ids(cars))
    ensures Consistent(Tallied(cars, ps, road, draws, t), Ids(cars))
    ensures Grows(t, Tallied(cars, ps, road, draws, t))
    decreases |ps|
  {
    if |ps| > 0 {
      CheckSegmentsKeeps(cars, ps[0], road, 0, draws, t);
      TalliedKeeps(cars, ps[1..], road, draws, CheckSegments(cars, ps[0], road, 0, draws, t));
    }
  }

  /** Evaluating ticks records exactly the neighbour pairs of those ticks. */
  lemma {:induction false} TalliedAdds(cars: seq<Car>, ps: seq<seq<nat>>, road: seq<Road>, draws: nat -> Draw, t: Tally)
    requires forall k :: 0 <= k < |ps| ==> |ps[k]| == |cars|
    ensures Tallied(cars, ps, road, draws, t).checked == t.checked + RunKeys(cars, ps, |road|)
    decreases |ps|
  {
    if |ps| > 0 {
      var u := CheckSegments(cars, ps[0], road, 0, draws, t);
      CheckSegmentsAdds(cars, ps[0], road, 0, draws, t);
      TalliedAdds(cars, ps[1..], road, draws, u);
    }
  }

  /** The whole loop keeps the tally consistent, only grows it, and its set
      of checked pairs is exactly the neighbour pairs of all its ticks. */
  lemma RunKeeps(cars: seq<Car>, pos: seq<nat>, road: seq<Road>, draws: nat -> Draw, t: Tally, tick: nat)
    requires InMotion(cars, pos, |road|, tick) && DistinctIds(cars)
    requires Consistent(t, Ids(cars))
    ensures Consistent(Run(cars, pos, road, draws, t, tick).tally, Ids(cars))
    ensures Grows(t, Run(cars, pos, road, draws, t, tick).tally)
    ensures Run(cars, pos, road, draws, t, tick).tally.checked
      == t.checked + RunKeys(cars, Trajectory(cars, pos, |road|, tick), |road|)
  {
    var ps := Trajectory(cars, pos, |road|, tick);
    TalliedKeeps(cars, ps, road, draws, t);
    TalliedAdds(cars, ps, road, draws, t);
  }

  /** Ticks on a road of risk-free segments count no collision. */
  lemma {:induction false} RiskFreeTallied(cars: seq<Car>, ps: seq<seq<nat>>, road: seq<Road>, draws: nat -> Draw, t: Tally)
    requires forall k :: 0 <= k < |ps| ==> |ps[k]| == |cars|
    requires forall k :: 0 <= k < |road| ==> RiskFree(road[k])
    ensures Tallied(cars, ps, road, draws, t).collisions == t.collisions
    decreases |ps|
  {
    if |ps| > 0 {
      RiskFreeSegments(cars, ps[0], road, 0, draws, t);
      RiskFreeTallied(cars, ps[1..], road, draws, CheckSegments(cars, ps[0], road, 0, draws, t));
    }
  }

  /** On a road whose every segment is the entrance or the exit, a whole run
      counts no collision: whatever the draws, every evaluation is a safe pass. */
  lemma RiskFreeRun(cars: seq<Car>, pos: seq<nat>, road: seq<Road>, draws: nat -> Draw, t: Tally, tick: nat)
    requires InMotion(cars, pos, |road|, tick)
    requires forall k :: 0 <= k < |road| ==> RiskFree(road[k])
    ensures Run(cars, pos, road, draws, t, tick).tally.collisions == t.collisions
  {
    RiskFreeTallied(cars, Trajectory(cars, pos, |road|, tick), road, draws, t);
  }

  /** A run from the start ends within ceil(len / slowest speed) ticks, and
      so within as many ticks as the road has segments. */
  lemma RunTicks(cars: seq<Car>, pos: seq<nat>, road: seq<Road>, draws: nat -> Draw, t: Tally)
    requires InMotion(cars, pos, |road|, 0) && |cars| > 0 && |road| > 0
    ensures MinSpeed(cars) >= 1
    ensures Run(cars, pos, road, draws, t, 0).ticks <= CeilDiv(|road|, MinSpeed(cars)) <= |road|
  {
    TrajectoryTicks(cars, pos, |road|);
    assert Run(cars, pos, road, draws, t, 0).ticks == |Trajectory(cars, pos, |road|, 0)|;
  }

  /** Over a whole run no pair is evaluated twice, so the evaluations number
      at most C(n, 2) for a fleet of n cars. */
  lemma RunPairsBound(cars: seq<Car>, pos: seq<nat>, road: seq<Road>, draws: nat -> Draw, tick: nat)
    requires InMotion(cars, pos, |road|, tick) && DistinctIds(cars)
    ensures var o := Run(cars, pos, road, draws, Tally({}, 0, 0), tick);
      o.tally.collisions + o.tally.safePasses == |o.tally.checked| <= Choose2(|cars|)
  {
    var o := Run(cars, pos, road, draws, Tally({}, 0, 0), tick);
    RunKeeps(cars, pos, road, draws, Tally({}, 0, 0), tick);
    PairsBound(Ids(cars), o.tally.checked);
    IdsCard(cars);
  }

  /** What a whole run from the start promises: each evaluation recorded one
      new pair, so the counters add up to the set's size, which is at most
      C(n, 2); every key is a pair of fleet ids, smaller first; the run ends
      within ceil(len / slowest speed) ticks, at most the road length. */
  lemma RunFromStart(cars: seq<Car>, pos: seq<nat>, road: seq<Road>, draws: nat -> Draw)
    requires InMotion(cars, pos, |road|, 0) && DistinctIds(cars)
    ensures var o := Run(cars, pos, road, draws, Tally({}, 0, 0), 0);
      && o.ticks >= 1
      && o.tally.collisions + o.tally.safePasses == |o.tally.checked| <= Choose2(|cars|)
      && (forall k :: k in o.tally.checked ==> k.0 < k.1 && k.0 in Ids(cars) && k.1 in Ids(cars))
      && (|cars| > 0 && |road| > 0 ==> MinSpeed(cars) >= 1 && o.ticks <= CeilDiv(|road|, MinSpeed(cars)) <= |road|)
  {
    RunKeeps(cars, pos, road, draws, Tally({}, 0, 0), 0);
    RunPairsBound(cars, pos, road, draws, 0);
    if |cars| > 0 && |road| > 0 {
      RunTicks(cars, pos, road, draws, Tally({}, 0, 0));
    }
  }

  /** The cars whose index is `r`, sorted by id (the filter and the
      sort_by_key of the segment loop). */
  method CarsOnSegment(cars: seq<Car>, r: nat) returns (onRoad: seq<Car>)
    requires DistinctIds(cars)
    ensures onRoad == OnSegment(cars, Positions(cars), r)
  {
    ghost var pos := Positions(cars);
    var selected: seq<Car> := [];
    for i := 0 to |cars|
      invariant selected == Selected(cars[..i], pos[..i], r)
    {
      assert cars[..i + 1][..i] == cars[..i] && pos[..i + 1][..i] == pos[..i];
      if cars[i].currentRoadIndex == r {
        selected := selected + [cars[i]];
      }
    }
    assert cars[..|cars|] == cars && pos[..|cars|] == pos;
    onRoad := SortById(selected);
    OnSegmentSorts(cars, pos, r);
  }

  /** The pair loop over one segment's sorted cars: it walks the neighbour
      pairs, skips a pair already in the set, and otherwise draws, counts a
      collision or a safe pass and records the pair. */
  method CheckPairs(onRoad: seq<Car>, road: Road, draws: nat -> Draw,
                    checkedPairs: set<Key>, collisions: nat, safePasses: nat)
    returns (newChecked: set<Key>, newCollisions: nat, newSafePasses: nat)
    ensures Tally(newChecked, newCollisions, newSafePasses)
      == CheckNeighbours(onRoad, 0, road, draws, Tally(checkedPairs, collisions, safePasses))
  {
    newChecked, newCollisions, newSafePasses := checkedPairs, collisions, safePasses;
    var last := if |onRoad| == 0 then 0 else |onRoad| - 1;
    for i := 0 to last
      invariant CheckNeighbours(onRoad, i, road, draws, Tally(newChecked, newCollisions, newSafePasses))
        == CheckNeighbours(onRoad, 0, road, draws, Tally(checkedPairs, collisions, safePasses))
    {
      ghost var visited := Visit(Tally(newChecked, newCollisions, newSafePasses), onRoad[i], onRoad[i + 1], road, draws);
      var car1 := onRoad[i];
      var car2 := onRoad[i + 1];
      var pair := if car1.id < car2.id then (car1.id, car2.id) else (car2.id, car1.id);
      assert pair == PairKey(car1, car2);
      if pair in newChecked {
        continue;
      }
      if CollisionCheck(car1, car2, road, draws(newCollisions + newSafePasses)) {
        newCollisions := newCollisions + 1;
      } else {
        newSafePasses := newSafePasses + 1;
      }
      newChecked := newChecked + {pair};
      assert Tally(newChecked, newCollisions, newSafePasses) == visited;
    }
  }

  /** One tick's pass over every segment of the road. */
  method CheckAllSegments(cars: seq<Car>, road: seq<Road>, draws: nat -> Draw,
                          checkedPairs: set<Key>, collisions: nat, safePasses: nat)
    returns (newChecked: set<Key>, newCollisions: nat, newSafePasses: nat)
    requires DistinctIds(cars)
    ensures Tally(newChecked, newCollisions, newSafePasses)
      == CheckSegments(cars, Positions(cars), road, 0, draws, Tally(checkedPairs, collisions, safePasses))
  {
    ghost var pos := Positions(cars);
    newChecked, newCollisions, newSafePasses := checkedPairs, collisions, safePasses;
    for r := 0 to |road|
      invariant CheckSegments(cars, pos, road, r, draws, Tally(newChecked, newCollisions, newSafePasses))
        == CheckSegments(cars, pos, road, 0, draws, Tally(checkedPairs, collisions, safePasses))
    {
      var onRoad := CarsOnSegment(cars, r);
      newChecked, newCollisions, newSafePasses := CheckPairs(onRoad, road[r], draws, newChecked, newCollisions, newSafePasses);
    }
  }

  /** The movement loop: every car still on the road advances by its speed. */
  method MoveCars(cars: seq<Car>, roadLen: nat)
    requires DistinctIds(cars)
    modifies cars
    ensures Positions(cars) == Moved(cars, old(Positions(cars)), roadLen)
  {
    ghost var pos := Positions(cars);
    ghost var moved := Moved(cars, pos, roadLen);
    for i := 0 to |cars|
      invariant forall j :: 0 <= j < i ==> cars[j].currentRoadIndex == moved[j]
      invariant forall j :: i <= j < |cars| ==> cars[j].currentRoadIndex == pos[j]
    {
      if cars[i].currentRoadIndex < roadLen {
        cars[i].currentRoadIndex := cars[i].currentRoadIndex + cars[i].speed;
      }
    }
  }

  /** The simulation loop over a fleet that starts at index 0 with speeds of
      at least one segment: tick, evaluate every segment, move, and stop once
      every car is past the end. Its result is Run's, and so it keeps the
      pair bound and the tick bound. */
  method Simulate(cars: seq<Car>, road: seq<Road>, draws: nat -> Draw)
    returns (tick: nat, collisions: nat, safePasses: nat, checkedPairs: set<Key>)
    requires DistinctIds(cars)
    requires forall i :: 0 <= i < |cars| ==> cars[i].speed >= 1 && cars[i].currentRoadIndex == 0
    modifies cars
    ensures InMotion(cars, old(Positions(cars)), |road|, 0)
    ensures Outcome(Tally(checkedPairs, collisions, safePasses), tick, Positions(cars))
      == Run(cars, old(Positions(cars)), road, draws, Tally({}, 0, 0), 0)
    ensures tick >= 1 && forall i :: 0 <= i < |cars| ==> cars[i].currentRoadIndex >= |road|
  {
    ghost var pos0 := Positions(cars);
    assert InMotion(cars, pos0, |road|, 0);
    ghost var final := Run(cars, pos0, road, draws, Tally({}, 0, 0), 0);
    ghost var pos := pos0;
    tick, collisions, safePasses, checkedPairs := 0, 0, 0, {};
    while true
      invariant pos == Positions(cars)
      invariant InMotion(cars, pos, |road|, tick)
      invariant Run(cars, pos, road, draws, Tally(checkedPairs, collisions, safePasses), tick) == final
      decreases |road| - tick
    {
      ghost var t := Tally(checkedPairs, collisions, safePasses);
      tick := tick + 1;
      checkedPairs, collisions, safePasses := CheckAllSegments(cars, road, draws, checkedPairs, collisions, safePasses);
      MoveCars(cars, |road|);
      if AllFinished(Positions(cars), |road|) {
        RunEnd(cars, pos, road, draws, t, tick - 1);
        break;
      }
      RunStep(cars, pos, road, draws, t, tick - 1);
      pos := Moved(cars, pos, |road|);
    }
  }

  /** The final report: the safe-pass count halved and rounded half up. */
  function ReportedSafePasses(safePasses: nat): (shown: nat)
    ensures safePasses <= 2 * shown <= safePasses + 1
  {
    (safePasses + 1) / 2
  }
}
