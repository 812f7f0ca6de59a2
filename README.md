# TrafficSimRust core in Dafny

TrafficSimRust is a discrete-time traffic simulator. A fleet of cars goes
through a fixed road of thirteen segments, entrance to exit. On every tick,
the cars on each segment are sorted by id and every pair of neighbours is
evaluated once per run. The evaluation compares one random draw in `0..=100`
with the segment's risk: a base risk plus a penalty per rule-breaking car. It
counts either a collision or a safe pass. Then every car still on the road
advances by its speed. The loop stops after the tick that takes the last car
past the end. The report shows the safe-pass count halved and rounded, and
the collision count.

Each file models one part of the program:

- `road.dfy` (`Roads`): the segment types and the road value.
- `car.dfy` (`Cars`): the car, a class whose road index changes in place.
- `sim_checks.dfy` (`SimChecks`): the risk table and the collision test.
- `setup.dfy` (`Setup`): the test road, the configuration guards, the
  rule-breaker split and the mph-to-segments conversion.
- `fleet.dfy` (`Fleet`): fleet construction and the shuffle.
- `segments.dfy` (`Segments`): the per-segment filter and id sort.
- `pairing.dfy` (`Pairing`): the pair loop and the `checked_pairs` set.
- `motion.dfy` (`Motion`): movement and termination.
- `pair_count.dfy` (`PairCount`): the C(n, 2) bound.
- `engine.dfy` (`Engine`): the tick loop.
- `simulation.dfy` (`Simulation`): the whole program from a parsed
  configuration to the report.
- `scenario.dfy` (`Scenario`): one concrete run.

The program's loops are methods over the `Car` objects. Each method is proved
equal to a pure reference function over a snapshot of the road indices:

| method | reference function |
|---|---|
| `CarsOnSegment` | `OnSegment` |
| `CheckPairs` | `CheckNeighbours` |
| `CheckAllSegments` | `CheckSegments` |
| `MoveCars` | `Moved` |
| `Simulate` | `Run` |

The lemmas about those functions carry what the loop promises:

- the counters add up to the size of the checked-pair set, so no pair is
  evaluated twice;
- a run evaluates at most C(n, 2) pairs;
- the run always terminates, within ceil(13 / slowest speed) ticks;
- the set of checked pairs is exactly the set of neighbour pairs of all
  ticks;
- each evaluation counts a collision exactly when the collision test on its
  draw is true, and otherwise a safe pass; so on a road made only of
  entrance and exit segments a run counts no collision.

Randomness enters as inputs:

- `speeds[k]` is the speed drawn for the car with id `k`;
- `perm` is the shuffle;
- `draws(n)` is the value of the n-th collision draw of the run.

The n-th collision draw is the one made when `collisions + safePasses == n`,
because a skipped pair makes no draw.

Where the program's names and output suggest more than the code does, the model follows the code:

- The variable `rule_breaking_cars` and the printed "# of rule breaking
  cars" suggest that some cars break the rules. In fact every car is created
  with `is_rule_breaker == false`, on both sides of the split
  (`src/main.rs:117-132`). So every run's collision odds are the base risks.
- The two `base_point` branches are identical (`src/main.rs:110-133`), so
  `basePoint` has no effect.
- A top speed below 5 mph rounds to 0 segments. `random_range(1..=0)` then
  has an empty range and stops the program. The model reports this as the
  error `EmptySpeedRange` whenever there is a car to build.

## Model

| member | source | states |
|---|---|---|
| Roads.NewRoad | src/road.rs:26-30 | a new road has the given segment type |
| Roads.AllRoadTypes | src/road.rs:1-14 | the twelve segment types, pairwise distinct |
| Roads.RoadTypeClosed | src/road.rs:1-14 | every segment type is one of those twelve |
| Cars.Car.constructor | src/car.rs:9-11 | the four fields hold the given flag, index, speed and id |
| Cars.Car.HasFinished | src/car.rs:17-19 | a car has finished once its index reaches the road length |
| Cars.Car.MoveForward | src/car.rs:13-15 | the index grows by exactly the speed and nothing else changes; with speed at least 1 it strictly grows, and a finished car stays finished |
| SimChecks.GetCollisionInfo | src/sim_checks.rs:5-52 | the risk table: base risk and penalty are zero exactly on Input and Output, base risk at most 25, penalty at most 60, base risk never above the penalty |
| SimChecks.RuleBreakers | src/sim_checks.rs:63-68 | the number of rule-breakers in the pair, 0 exactly when neither breaks and 2 exactly when both do |
| SimChecks.Odds | src/sim_checks.rs:61-68 | the odds are the base risk plus one penalty per rule-breaking car |
| SimChecks.CollisionCheck | src/sim_checks.rs:55-71 | for a draw in 0..=100, the pair collides exactly when that draw is below the odds of the segment and the two flags |
| SimChecks.ZeroRiskNeverCollides | src/sim_checks.rs:55-71 | on Input and Output no draw and no flag combination collides |
| SimChecks.SchoolZoneSaturates | src/sim_checks.rs:35-38 | two rule-breakers in a School Zone face odds 145, so every draw collides |
| SimChecks.CollisionCheckSymmetric | src/sim_checks.rs:55-71 | the outcome does not depend on which car is first |
| SimChecks.OddsMonotone | src/sim_checks.rs:61-68 | more rule-breakers in the pair never lower the odds |
| Setup.TestRoad | src/main.rs:37-51 | thirteen segments, Input first, Output last, and every segment between them carries risk |
| Setup.RoundedShare | src/main.rs:68-71 | the rule-breaker count is cars × percent / 100 rounded half up |
| Setup.ShareAtMostTotal | src/main.rs:68-73 | with a percentage of at most 100 the share never exceeds the total, so the lawful-count subtraction cannot underflow |
| Setup.SegmentSpeed | src/main.rs:76 | the top speed in segments is mph / 10 rounded half up |
| Setup.CheckConfig | src/main.rs:57-82 | the configuration is accepted exactly when the percentage is at most 100 and the segment speed is below the road length; otherwise the error names the first failed guard; on acceptance the plan splits the cars exactly and carries the segment speed |
| Setup.CapacityRejection | src/main.rs:76-82 | on the thirteen-segment road a valid percentage is refused exactly when the top speed is 125 mph or more |
| Fleet.IdsCard | src/main.rs:106-133 | a fleet with distinct ids has as many ids as cars |
| Fleet.Extend | src/main.rs:112-116 | appends `count` fresh lawful cars at index 0, each taking the next id and the speed drawn for that id, and advances the id counter by `count` |
| Fleet.BuildFleet | src/main.rs:106-133 | builds lawful cars then rule-breaking cars: car k has id k, index 0, the speed drawn for k in 1..topSpeed, the flag false, and the ids are distinct |
| Fleet.Shuffled | src/main.rs:136 | the shuffle places the car `perm[i]` at position i and keeps every car, the set of ids and distinctness |
| Segments.Selected | src/main.rs:155-157 | the cars whose index is the segment, in fleet order (its properties are in SelectedFacts) |
| Segments.SelectedFacts | src/main.rs:155-157 | the filter keeps exactly the cars whose index is the segment |
| Segments.SelectedDistinct | src/main.rs:155-157 | the filter of a fleet with distinct ids has distinct ids |
| Segments.SortById | src/main.rs:160 | the insertion sort by id, a permutation of its input |
| Segments.InsertAscending | src/main.rs:160 | inserting into an id-ascending sequence keeps it ascending |
| Segments.SortAscending | src/main.rs:160 | the insertion sort by id of distinct-id cars is strictly ascending |
| Segments.OnSegment | src/main.rs:155-160 | the cars at index r in ascending id order (its properties are in OnSegmentFacts and OnSegmentSorts) |
| Segments.OnSegmentPermutes | src/main.rs:155-160 | the segment's sorted cars are a permutation of the filtered cars |
| Segments.OnSegmentAscending | src/main.rs:155-160 | with distinct ids the segment's cars are in strictly increasing id order |
| Segments.AscendingUnique | src/main.rs:160 | two id-ascending sequences with the same elements are equal, so every correct sort gives the same order |
| Segments.OnSegmentSorts | src/main.rs:155-160 | filtering then sorting by id gives the segment's cars as OnSegment lists them |
| Segments.OnSegmentFacts | src/main.rs:155-160 | the segment's cars are ascending by id and are exactly the cars whose index is the segment |
| Segments.NoCarBetween | src/main.rs:155-165 | no car of the segment has an id strictly between two neighbours |
| PairCount.Choose2 | src/main.rs:140 | C(n, 2) = n(n-1)/2 |
| PairCount.PairsBound | src/main.rs:140 | a set of ordered pairs of distinct ids from n ids has at most C(n, 2) members |
| Pairing.PairKey | src/main.rs:167-172 | the key holds the two ids, smaller first, and differs in its parts when the ids differ |
| Pairing.Visit | src/main.rs:174-195 | a pair already in the set changes nothing and uses no draw; otherwise the pair joins the set and the collision count grows by one exactly when the collision test on the next draw is true, the safe-pass count by one exactly when it is false |
| Pairing.CheckNeighbours | src/main.rs:163-196 | the pair loop over one segment's sorted cars; the set and both counters only grow |
| Pairing.CheckSegments | src/main.rs:153-197 | one tick's pass over every segment in road order; the set and both counters only grow |
| Pairing.CheckNeighboursKeeps | src/main.rs:163-196 | the pair loop keeps the counters equal to the set's size and the keys ordered fleet ids, and only grows the tally |
| Pairing.CheckNeighboursAdds | src/main.rs:163-196 | the pair loop adds exactly the keys of the neighbour pairs |
| Pairing.CheckSegmentsKeeps | src/main.rs:153-197 | one tick's pass over the road keeps the tally consistent and only grows it |
| Pairing.CheckSegmentsAdds | src/main.rs:153-197 | one tick's pass adds exactly the neighbour pairs of every segment |
| Pairing.RiskFreeNeighbours | src/main.rs:163-196 | on the entrance or the exit the pair loop counts no collision, whatever the draws |
| Pairing.RiskFreeSegments | src/main.rs:153-197 | on a road of entrance and exit segments one tick counts no collision |
| Pairing.AdjacentKeysAreNeighbours | src/main.rs:155-172 | every key a segment adds belongs to two cars of that segment with no segment car between their ids |
| Pairing.NeighboursAreAdjacentKeys | src/main.rs:155-172 | conversely every such pair of cars is a key the segment adds |
| Motion.Positions | src/main.rs:155-156 | the snapshot lists every car's road index |
| Motion.AllFinished | src/main.rs:207 | the loop's stop test: every index is at least the road length |
| Motion.Moved | src/main.rs:199-204 | a car still on the road advances by its speed, a car past the end stays |
| Motion.DistanceProduct | src/main.rs:199-204 | the distance covered in `ticks` ticks is speed × ticks |
| Motion.DistanceMonotone | src/main.rs:199-204 | a faster car covers at least as much, and any car at least one segment per tick |
| Motion.MovedInMotion | src/main.rs:199-204 | the moving state is kept by a move |
| Motion.MinSpeedIsMinimum | src/main.rs:199-209 | the slowest speed is at most every car's speed and is the speed of some car |
| Motion.StillRunning | src/main.rs:206-209 | while some car is on the road, the slowest car has covered less than the road and the tick count is below the road length |
| Motion.Trajectory | src/main.rs:148-210 | the snapshots the loop sees, starting with the current one, all of fleet size |
| Motion.TrajectoryStep | src/main.rs:206-209 | a tick that leaves a car on the road is followed by another tick |
| Motion.TrajectoryStepLength | src/main.rs:206-209 | such a tick adds one to the number of ticks |
| Motion.TrajectoryFinishes | src/main.rs:206-209 | the move after the last snapshot takes every car past the end |
| Motion.TrajectoryLinks | src/main.rs:199-209 | each snapshot is the move of the one before, and no move before the last leaves every car past the end |
| Motion.TrajectoryLength | src/main.rs:206-209 | the loop's tick count exceeds the ticks already run by at most what the slowest car needs |
| Motion.TrajectoryTicks | src/main.rs:206-209 | from the start the loop runs at most ceil(len / slowest speed) ticks, at most the road length |
| Motion.CeilDiv | src/main.rs:206-209 | the ceiling of a / b |
| Motion.TickBound | src/main.rs:206-209 | a tick count whose previous tick left the slowest car short of the road is within the ceiling bound |
| Motion.DistanceTickBound | src/main.rs:206-209 | the same bound stated with the distance covered |
| Engine.Tallied | src/main.rs:148-197 | the pair evaluation of every tick in turn, from a given tally; it gives Run's tally (its properties are in TalliedKeeps and TalliedAdds) |
| Engine.Run | src/main.rs:148-210 | the whole loop runs at least one more tick and ends with every car past the end |
| Engine.RunStep | src/main.rs:148-210 | a tick that leaves a car on the road continues the loop from the moved indices with that tick's tally |
| Engine.RunEnd | src/main.rs:206-209 | the tick that takes every car past the end stops the loop with that tick's tally |
| Engine.TalliedKeeps | src/main.rs:148-197 | every tick keeps the tally consistent and only grows it |
| Engine.TalliedAdds | src/main.rs:148-197 | the checked set gains exactly the neighbour pairs of the ticks |
| Engine.RiskFreeTallied | src/main.rs:148-197 | ticks on a road of entrance and exit segments count no collision |
| Engine.RiskFreeRun | src/main.rs:148-210 | a whole run on such a road counts no collision: every evaluation is a safe pass |
| Engine.RunKeeps | src/main.rs:140-210 | over the whole loop the counters add up to the set's size, grow only, and the set is exactly the neighbour pairs of all ticks |
| Engine.RunTicks | src/main.rs:148-210 | a run from the start ends within ceil(len / slowest speed) ticks, at most the road length |
| Engine.RunPairsBound | src/main.rs:140-197 | collisions plus safe passes equal the number of checked pairs, at most C(n, 2) |
| Engine.RunFromStart | src/main.rs:140-210 | a run from the start gives at least one tick, the counter conservation, the C(n, 2) bound, ordered fleet-id keys and the tick bound |
| Engine.CarsOnSegment | src/main.rs:155-160 | the filter and the id sort give the segment's cars in OnSegment's order |
| Engine.CheckPairs | src/main.rs:163-196 | the pair loop's counters and set are CheckNeighbours' tally |
| Engine.CheckAllSegments | src/main.rs:153-197 | the segment loop's counters and set are CheckSegments' tally for the current indices |
| Engine.MoveCars | src/main.rs:199-204 | the new indices are Moved of the old ones |
| Engine.Simulate | src/main.rs:140-210 | the loop's tick count, counters, set and final indices are Run's, and every car ends past the road |
| Engine.ReportedSafePasses | src/main.rs:216 | the shown count is half the safe passes rounded half up |
| Simulation.StartPositions | src/main.rs:113 | every new car starts at index 0 |
| Simulation.RunSimulation | src/main.rs:54-217 | the program fails exactly on a refused configuration or an empty speed range with cars to build, and then creates no car; a refused configuration gives its error, an accepted one with an empty speed range and cars to build gives `EmptySpeedRange`; a completed run ends with the shuffled lawful fleet past the road and reports Run's halved safe passes and collisions; the evaluations (collisions plus unhalved safe passes) and so the reported sum number at most C(n, 2) |
| Simulation.RunPlan | src/main.rs:105-217 | after the guards, the run fails with `EmptySpeedRange`, creating no car, exactly when the speed range is empty and there are cars; otherwise it completes as above |
| Simulation.StartFleet | src/main.rs:105-137 | the shuffled fleet: car i has id `perm[i]`, that id's speed, the flag false, index 0, distinct ids |
| Simulation.FleetTally | src/main.rs:140-210 | the counters and the set of Run on the test road for the fleet at index 0 |
| Simulation.FleetReport | src/main.rs:216-217 | the printed pair: the halved safe-pass count and the collision count of that tally |
| Simulation.RunFleet | src/main.rs:139-217 | the tick loop and the report end with every car past the road and the report equal to the fleet's; collisions plus unhalved safe passes, and so collisions plus the shown safe passes, are at most C(n, 2) |
| Scenario.TwoCarsOnShortRoad | src/main.rs:148-216 | two lawful cars of speed 2 on an Input-Output road: one tick, one safe pass, no collision, both at index 2, and a reported safe-pass count of 1 |
| Scenario.ShortRoadTick | src/main.rs:153-197 | that tick records the pair (0, 1) as a safe pass |
| Scenario.ShortRoadSegments | src/main.rs:155-160 | both cars are on the entrance in id order and none on the exit |

## Left out

- Configuration loading (`src/config.rs`, the TOML file) is not part of this model. The parsed configuration is an input.
- Logging, the banner, `line_break` and every `println!` are left out. They do not affect the state.
- The debug-only collision warning (`src/main.rs:183-188`) only prints, so it is left out; `debug` has no effect.
- The stdin confirmation (`src/main.rs:96-100`) is left out. Its input is discarded, and the panic of `.expect(...)` when the read fails is not modelled.
- The `panic!` and `exit(-1)` outcomes become error values of `RunSimulation`.
- Randomness is left out: the speed draws, the shuffle and the collision draws become the inputs `speeds`, `perm` and `draws`.
- Setup.RoundedShare, Setup.SegmentSpeed: the f32 arithmetic and `.round()` are modelled as exact integer round-half-up. f32 precision loss for very large values is not modelled.
- Engine.ReportedSafePasses: the f32 halving is modelled as exact round-half-up, `(n + 1) / 2`. f32 precision loss for very large counts is not modelled.
- Integer widths (`u32`, `usize`) are unbounded here, so overflow of the counters, ids or road indices is not modelled.
- Fleet.Shuffled: the in-place `shuffle` is modelled on values, as a permutation of the built fleet.
- Engine.CarsOnSegment, Engine.CheckAllSegments, Engine.MoveCars and Engine.Simulate require distinct ids. Fleet construction guarantees distinct ids, and the id sort is unique only then.
- `Car::has_finished` (`src/car.rs:17-19`) is modelled as `Cars.Car.HasFinished`, but the tick loop does not call it. The loop compares indices directly (`Motion.AllFinished`), as the source does.
- `Car::move_forward` is modelled, but the tick loop does not call it. The loop updates the index inline with the road-length guard (`src/main.rs:200-204`), as the source does.
