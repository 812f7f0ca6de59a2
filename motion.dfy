/** Movement and termination of the tick loop, over snapshots of the road
    indices: a car on the road advances by its speed, a car past the end stays
    put, and the loop stops once every car is past the end. */
module Motion {
  import opened Cars

  /** The road index of every car, in fleet order. */
  function Positions(cars: seq<Car>): (pos: seq<nat>)
    reads cars
    ensures |pos| == |cars|
    ensures forall i :: 0 <= i < |cars| ==> pos[i] == cars[i].currentRoadIndex
  {
    seq(|cars|, i requires 0 <= i < |cars| reads cars => cars[i].currentRoadIndex)
  }

  /** The movement step: a car still on the road advances by exactly its speed,
      a car past the end stays where it is; no index ever decreases. */
  function Moved(cars: seq<Car>, pos: seq<nat>, roadLen: nat): (moved: seq<nat>)
    requires |pos| == |cars|
    ensures |moved| == |pos|
    ensures forall i :: 0 <= i < |pos| ==> pos[i] <= moved[i]
    ensures forall i :: 0 <= i < |pos| && pos[i] < roadLen ==> moved[i] == pos[i] + cars[i].speed
    ensures forall i :: 0 <= i < |pos| && pos[i] >= roadLen ==> moved[i] == pos[i]
  {
    seq(|pos|, i requires 0 <= i < |pos| => if pos[i] < roadLen then pos[i] + cars[i].speed else pos[i])
  }

  /** The loop's exit test: every car is at or past the end of the road. */
  predicate AllFinished(pos: seq<nat>, roadLen: nat)
  {
    forall i :: 0 <= i < |pos| ==> pos[i] >= roadLen
  }

  /** How far a car with speed `speed` has got after `ticks` moves. Kept
      recursive so that proofs about the loop stay in linear arithmetic;
      DistanceProduct gives the closed form. */
  function Distance(speed: nat, ticks: nat): nat
  {
    if ticks == 0 then 0 else Distance(speed, ticks - 1) + speed
  }

  lemma {:induction false} DistanceProduct(speed: nat, ticks: nat)
    ensures Distance(speed, ticks) == speed * ticks
  {
    if ticks > 0 {
      DistanceProduct(speed, ticks - 1);
      assert speed * ticks == speed * (ticks - 1) + speed;
    }
  }

  /** A faster car has got at least as far, and any moving car has got at
      least one segment per move. */
  lemma {:induction false} DistanceMonotone(slow: nat, fast: nat, ticks: nat)
    requires 1 <= slow <= fast
    ensures ticks <= Distance(slow, ticks) <= Distance(fast, ticks)
  {
    if ticks > 0 {
      DistanceMonotone(slow, fast, ticks - 1);
    }
  }

  /** The indices after `tick` ticks of a fleet that started at index 0: a car
      still on the road has moved `tick` times by its speed. */
  ghost predicate InMotion(cars: seq<Car>, pos: seq<nat>, roadLen: nat, tick: nat)
  {
    && |pos| == |cars|
    && (forall i :: 0 <= i < |cars| ==> cars[i].speed >= 1)
    && (forall i :: 0 <= i < |cars| && pos[i] < roadLen ==> pos[i] == Distance(cars[i].speed, tick))
  }

  /** One move keeps that description, one tick later. */
  lemma MovedInMotion(cars: seq<Car>, pos: seq<nat>, roadLen: nat, tick: nat)
    requires InMotion(cars, pos, roadLen, tick)
    ensures InMotion(cars, Moved(cars, pos, roadLen), roadLen, tick + 1)
  {
    var moved := Moved(cars, pos, roadLen);
    forall i | 0 <= i < |cars| && moved[i] < roadLen ensures moved[i] == Distance(cars[i].speed, tick + 1) {
    }
  }

  /** The slowest speed of a non-empty fleet (MinSpeedIsMinimum states it). */
  function MinSpeed(cars: seq<Car>): nat
    requires |cars| > 0
  {
    if |cars| == 1 then cars[0].speed
    else
      var rest := MinSpeed(cars[1..]);
      if cars[0].speed <= rest then cars[0].speed else rest
  }

  /** MinSpeed is the speed of some car and no car is slower. */
  lemma {:induction false} MinSpeedIsMinimum(cars: seq<Car>)
    requires |cars| > 0
    ensures forall i :: 0 <= i < |cars| ==> MinSpeed(cars) <= cars[i].speed
    ensures exists i :: 0 <= i < |cars| && MinSpeed(cars) == cars[i].speed
  {
    if |cars| > 1 {
      MinSpeedIsMinimum(cars[1..]);
      assert forall i :: 1 <= i < |cars| ==> cars[i] == cars[1..][i - 1];
      var j :| 0 <= j < |cars[1..]| && MinSpeed(cars[1..]) == cars[1..][j].speed;
      assert cars[1..][j] == cars[j + 1];
      var w := if cars[0].speed <= MinSpeed(cars[1..]) then 0 else j + 1;
      assert MinSpeed(cars) == cars[w].speed;
    } else {
      assert MinSpeed(cars) == cars[0].speed;
    }
  }

  /** While some car is still on the road after `tick` ticks, `tick` moves of
      a speed no car undercuts have not covered the road; as every car moves
      at least one segment per tick, fewer than `roadLen` ticks have passed. */
  lemma StillRunning(cars: seq<Car>, pos: seq<nat>, roadLen: nat, tick: nat, slowest: nat)
    requires InMotion(cars, pos, roadLen, tick)
    requires !AllFinished(pos, roadLen)
    requires 1 <= slowest && forall i :: 0 <= i < |cars| ==> slowest <= cars[i].speed
    ensures Distance(slowest, tick) < roadLen
    ensures tick < roadLen
  {
    var i :| 0 <= i < |pos| && pos[i] < roadLen;
    DistanceMonotone(slowest, cars[i].speed, tick);
  }

  /** The indices at the start of every remaining tick of the loop, from a
      state reached after `tick` ticks: it checks pairs at each of them, moves,
      and stops once the move has taken every car past the end. */
  function Trajectory(cars: seq<Car>, pos: seq<nat>, roadLen: nat, tick: nat): (ps: seq<seq<nat>>)
    requires InMotion(cars, pos, roadLen, tick)
    ensures |ps| >= 1 && ps[0] == pos
    ensures forall k :: 0 <= k < |ps| ==> |ps[k]| == |cars|
    decreases roadLen - tick
  {
    var moved := Moved(cars, pos, roadLen);
    if AllFinished(moved, roadLen) then
      [pos]
    else
      assert InMotion(cars, moved, roadLen, tick + 1) && tick + 1 < roadLen by {
        MovedInMotion(cars, pos, roadLen, tick);
        StillRunning(cars, moved, roadLen, tick + 1, 1);
      }
      var rest := Trajectory(cars, moved, roadLen, tick + 1);
      assert forall k :: 1 <= k < |rest| + 1 ==> ([pos] + rest)[k] == rest[k - 1];
      [pos] + rest
  }

  /** One step of the trajectory: while the move leaves some car on the road,
      the loop goes on from the moved indices one tick later. */
  lemma TrajectoryStep(cars: seq<Car>, pos: seq<nat>, roadLen: nat, tick: nat)
    requires InMotion(cars, pos, roadLen, tick)
    requires !AllFinished(Moved(cars, pos, roadLen), roadLen)
    ensures tick + 1 < roadLen && InMotion(cars, Moved(cars, pos, roadLen), roadLen, tick + 1)
    ensures Trajectory(cars, pos, roadLen, tick) == [pos] + Trajectory(cars, Moved(cars, pos, roadLen), roadLen, tick + 1)
  {
    MovedInMotion(cars, pos, roadLen, tick);
    StillRunning(cars, Moved(cars, pos, roadLen), roadLen, tick + 1, 1);
  }

  /** TrajectoryStep counted: a tick that leaves some car on the road adds
      one snapshot. */
  lemma TrajectoryStepLength(cars: seq<Car>, pos: seq<nat>, roadLen: nat, tick: nat)
    requires InMotion(cars, pos, roadLen, tick)
    requires !AllFinished(Moved(cars, pos, roadLen), roadLen)
    ensures tick + 1 < roadLen && InMotion(cars, Moved(cars, pos, roadLen), roadLen, tick + 1)
    ensures |Trajectory(cars, pos, roadLen, tick)| == |Trajectory(cars, Moved(cars, pos, roadLen), roadLen, tick + 1)| + 1
  {
    TrajectoryStep(cars, pos, roadLen, tick);
  }

  /** The last step of the trajectory: once the move takes every car past the
      end, the loop stops after this tick. */
  lemma TrajectoryEnd(cars: seq<Car>, pos: seq<nat>, roadLen: nat, tick: nat)
    requires InMotion(cars, pos, roadLen, tick)
    requires AllFinished(Moved(cars, pos, roadLen), roadLen)
    ensures Trajectory(cars, pos, roadLen, tick) == [pos]
  {
  }

  /** The move after the last tick of the trajectory takes every car past the end. */
  lemma {:induction false} TrajectoryFinishes(cars: seq<Car>, pos: seq<nat>, roadLen: nat, tick: nat)
    requires InMotion(cars, pos, roadLen, tick)
    ensures var ps := Trajectory(cars, pos, roadLen, tick);
      AllFinished(Moved(cars, ps[|ps| - 1], roadLen), roadLen)
    decreases roadLen - tick
  {
    var moved := Moved(cars, pos, roadLen);
    if !AllFinished(moved, roadLen) {
      TrajectoryStep(cars, pos, roadLen, tick);
      TrajectoryFinishes(cars, moved, roadLen, tick + 1);
    } else {
      TrajectoryEnd(cars, pos, roadLen, tick);
    }
  }

  /** Consecutive snapshots are one move apart, and every move but the one
      after the last snapshot leaves some car on the road. */
  ghost predicate Linked(cars: seq<Car>, ps: seq<seq<nat>>, roadLen: nat)
  {
    && (forall k :: 0 <= k < |ps| ==> |ps[k]| == |cars|)
    && forall k {:trigger Moved(cars, ps[k], roadLen)} :: 0 <= k < |ps| - 1 ==>
         ps[k + 1] == Moved(cars, ps[k], roadLen) && !AllFinished(Moved(cars, ps[k], roadLen), roadLen)
  }

  /** The trajectory is linked: the loop moves once per tick, and no tick
      before the last one leaves every car past the end. */
  lemma {:induction false} TrajectoryLinks(cars: seq<Car>, pos: seq<nat>, roadLen: nat, tick: nat)
    requires InMotion(cars, pos, roadLen, tick)
    ensures Linked(cars, Trajectory(cars, pos, roadLen, tick), roadLen)
    decreases roadLen - tick
  {
    var moved := Moved(cars, pos, roadLen);
    if !AllFinished(moved, roadLen) {
      TrajectoryStep(cars, pos, roadLen, tick);
      TrajectoryLinks(cars, moved, roadLen, tick + 1);
      LinksCons(cars, pos, Trajectory(cars, moved, roadLen, tick + 1), roadLen);
    } else {
      TrajectoryEnd(cars, pos, roadLen, tick);
    }
  }

  /** A linked sequence extends to the front by a snapshot whose move reaches
      its first one and leaves some car on the road. */
  lemma LinksCons(cars: seq<Car>, pos: seq<nat>, rest: seq<seq<nat>>, roadLen: nat)
    requires |pos| == |cars| && Linked(cars, rest, roadLen)
    requires |rest| >= 1 && rest[0] == Moved(cars, pos, roadLen) && !AllFinished(rest[0], roadLen)
    ensures Linked(cars, [pos] + rest, roadLen)
  {
    var ps := [pos] + rest;
    forall k | 0 <= k < |ps|
      ensures |ps[k]| == |cars|
    {
      if k > 0 {
        assert ps[k] == rest[k - 1];
      }
    }
    forall k | 0 <= k < |ps| - 1
      ensures ps[k + 1] == Moved(cars, ps[k], roadLen) && !AllFinished(Moved(cars, ps[k], roadLen), roadLen)
    {
      if k > 0 {
        assert ps[k] == rest[k - 1] && ps[k + 1] == rest[k];
      }
    }
  }

  /** Every tick of the trajectory but the first starts with some car still
      on the road, so before the last tick the slowest car had not yet
      covered the road. */
  lemma {:induction false} TrajectoryLength(cars: seq<Car>, pos: seq<nat>, roadLen: nat, tick: nat, slowest: nat)
    requires InMotion(cars, pos, roadLen, tick)
    requires 1 <= slowest && forall i :: 0 <= i < |cars| ==> slowest <= cars[i].speed
    ensures |Trajectory(cars, pos, roadLen, tick)| == 1
      || Distance(slowest, tick + |Trajectory(cars, pos, roadLen, tick)| - 1) < roadLen
    decreases roadLen - tick
  {
    var moved := Moved(cars, pos, roadLen);
    if !AllFinished(moved, roadLen) {
      TrajectoryStepLength(cars, pos, roadLen, tick);
      StillRunning(cars, moved, roadLen, tick + 1, slowest);
      TrajectoryLength(cars, moved, roadLen, tick + 1, slowest);
    } else {
      TrajectoryEnd(cars, pos, roadLen, tick);
    }
  }

  /** From the start, the loop runs at most ceil(len / slowest speed) ticks,
      which is at most the road length. */
  lemma TrajectoryTicks(cars: seq<Car>, pos: seq<nat>, roadLen: nat)
    requires InMotion(cars, pos, roadLen, 0) && |cars| > 0 && roadLen > 0
    ensures MinSpeed(cars) >= 1
    ensures |Trajectory(cars, pos, roadLen, 0)| <= CeilDiv(roadLen, MinSpeed(cars)) <= roadLen
  {
    var n := |Trajectory(cars, pos, roadLen, 0)|;
    var m := MinSpeed(cars);
    MinSpeedIsMinimum(cars);
    TrajectoryLength(cars, pos, roadLen, 0, m);
    assert 0 + n - 1 == n - 1;
    DistanceTickBound(n, m, roadLen);
  }

  /** ceil(a / b) on naturals. */
  function CeilDiv(a: nat, b: nat): (q: nat)
    requires b >= 1
    ensures q * b >= a && (q == 0 || (q - 1) * b < a)
  {
    (a + b - 1) / b
  }

  /** A run that stops after one tick, or whose next-to-last tick left the
      slowest car short of the end, takes at most ceil(len / minSpeed) ticks,
      and that is at most the road length. */
  lemma TickBound(ticks: nat, minSpeed: nat, roadLen: nat)
    requires minSpeed >= 1 && roadLen >= 1 && ticks >= 1
    requires ticks == 1 || (ticks - 1) * minSpeed < roadLen
    ensures ticks <= CeilDiv(roadLen, minSpeed) <= roadLen
  {
    assert ticks * minSpeed == (ticks - 1) * minSpeed + minSpeed;
    DivLowerBound(ticks, roadLen + minSpeed - 1, minSpeed);
    assert (roadLen + 1) * minSpeed == roadLen * minSpeed + minSpeed;
    MulLe(1, minSpeed, roadLen);
    DivUpperBound(roadLen + minSpeed - 1, minSpeed, roadLen);
  }

  /** The same bound, from the distance the slowest car had covered. */
  lemma DistanceTickBound(ticks: nat, minSpeed: nat, roadLen: nat)
    requires minSpeed >= 1 && roadLen >= 1 && ticks >= 1
    requires ticks == 1 || Distance(minSpeed, ticks - 1) < roadLen
    ensures ticks <= CeilDiv(roadLen, minSpeed) <= roadLen
  {
    DistanceProduct(minSpeed, ticks - 1);
    assert minSpeed * (ticks - 1) == (ticks - 1) * minSpeed;
    TickBound(ticks, minSpeed, roadLen);
  }

  lemma MulLe(a: nat, b: nat, m: nat)
    ensures a <= b ==> a * m <= b * m
  {
  }

  /** `t <= x / m` whenever `t * m <= x`. */
  lemma DivLowerBound(t: nat, x: nat, m: nat)
    requires m >= 1 && t * m <= x
    ensures t <= x / m
  {
    var q := x / m;
    assert x == q * m + x % m;
    assert (q + 1) * m == q * m + m;
    MulLe(q + 1, t, m);
  }

  /** `x / m <= u` whenever `x < (u + 1) * m`. */
  lemma DivUpperBound(x: nat, m: nat, u: nat)
    requires m >= 1 && x < (u + 1) * m
    ensures x / m <= u
  {
    var q := x / m;
    assert x == q * m + x % m;
    MulLe(u + 1, q, m);
  }
}
