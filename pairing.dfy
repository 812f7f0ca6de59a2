/** The pair evaluation of one tick, as pure functions over a snapshot of
    the road indices (`pos[i]` is the index of `cars[i]`): Visit for the body
    of the pair loop, CheckNeighbours for the pair loop over one segment,
    CheckSegments for the pass over the whole road. The lemmas give pair
    uniqueness, counter conservation, growth and exactly which keys a tick adds. */
module Pairing {
  import opened Roads
  import opened Cars
  import opened SimChecks
  import opened Fleet
  import opened Segments

  /** A normalised pair of ids, smaller first. */
  type Key = (nat, nat)

  /** One value of the random source: `random_range(0..=100)`. */
  type Draw = v: nat | v <= 100

  /** The run-wide `checked_pairs` set and the two counters. */
  datatype Tally = Tally(checked: set<Key>, collisions: nat, safePasses: nat)

  /** The unordered pair of two cars' ids, smaller id first. */
  function PairKey(one: Car, two: Car): (key: Key)
    ensures key.0 <= key.1
    ensures (key.0 == one.id && key.1 == two.id) || (key.0 == two.id && key.1 == one.id)
    ensures one.id != two.id ==> key.0 < key.1
  {
    if one.id < two.id then (one.id, two.id) else (two.id, one.id)
  }

  /** One pass of the pair loop's body. A pair already checked is skipped and
      consumes no draw; otherwise the next draw, number collisions + safePasses
      of the run, decides which of the two counters grows, and the pair is
      recorded. */
  function Visit(t: Tally, one: Car, two: Car, road: Road, draws: nat -> Draw): (u: Tally)
    ensures u.checked == t.checked + {PairKey(one, two)}
    ensures PairKey(one, two) in t.checked ==> u == t
    ensures PairKey(one, two) !in t.checked ==>
      && u.collisions + u.safePasses == t.collisions + t.safePasses + 1
      && t.collisions <= u.collisions && t.safePasses <= u.safePasses
    ensures PairKey(one, two) !in t.checked ==>
      && (u.collisions == t.collisions + 1 <==> CollisionCheck(one, two, road, draws(t.collisions + t.safePasses)))
      && (u.safePasses == t.safePasses + 1 <==> !CollisionCheck(one, two, road, draws(t.collisions + t.safePasses)))
  {
    var pair := PairKey(one, two);
    if pair in t.checked then t
    else if CollisionCheck(one, two, road, draws(t.collisions + t.safePasses)) then
      Tally(t.checked + {pair}, t.collisions + 1, t.safePasses)
    else
      Tally(t.checked + {pair}, t.collisions, t.safePasses + 1)
  }

  /** The pair loop over one segment's sorted cars, from neighbour pair `i` on.
      The set and both counters only grow. */
  function CheckNeighbours(onRoad: seq<Car>, i: nat, road: Road, draws: nat -> Draw, t: Tally): (u: Tally)
    ensures t.checked <= u.checked && t.collisions <= u.collisions && t.safePasses <= u.safePasses
    decreases |onRoad| - i
  {
    if i + 1 < |onRoad| then
      CheckNeighbours(onRoad, i + 1, road, draws, Visit(t, onRoad[i], onRoad[i + 1], road, draws))
    else
      t
  }

  /** One tick's pass over the segments `r`, `r + 1`, ... of the road. The set
      and both counters only grow. */
  function CheckSegments(cars: seq<Car>, pos: seq<nat>, road: seq<Road>, r: nat, draws: nat -> Draw, t: Tally): (u: Tally)
    requires |pos| == |cars|
    ensures t.checked <= u.checked && t.collisions <= u.collisions && t.safePasses <= u.safePasses
    decreases |road| - r
  {
    if r < |road| then
      CheckSegments(cars, pos, road, r + 1, draws, CheckNeighbours(OnSegment(cars, pos, r), 0, road[r], draws, t))
    else
      t
  }

  /** The state the source keeps at every evaluation: each collision_check call
      has recorded a new key, so the counters add up to the number of keys and
      no pair was evaluated twice; every key is a pair of fleet ids, smaller first. */
  ghost predicate Consistent(t: Tally, ids: set<nat>)
  {
    && t.collisions + t.safePasses == |t.checked|
    && forall k :: k in t.checked ==> k.0 < k.1 && k.0 in ids && k.1 in ids
  }

  /** The set only grows and neither counter decreases. */
  ghost predicate Grows(t: Tally, u: Tally)
  {
    t.checked <= u.checked && t.collisions <= u.collisions && t.safePasses <= u.safePasses
  }

  /** The key of the neighbour pair `(s[j], s[j + 1])`. */
  function NeighbourKey(s: seq<Car>, j: nat): Key
    requires j + 1 < |s|
  {
    PairKey(s[j], s[j + 1])
  }

  /** The keys of the neighbour pairs `(s[j], s[j + 1])` for `j >= i`. */
  ghost function AdjacentKeys(s: seq<Car>, i: nat): set<Key>
  {
    set j: nat | i <= j && j + 1 < |s| :: NeighbourKey(s, j)
  }

  /** The pair loop keeps the tally consistent and only grows it. */
  lemma {:induction false} CheckNeighboursKeeps(onRoad: seq<Car>, i: nat, road: Road, draws: nat -> Draw, t: Tally, ids: set<nat>)
    requires Consistent(t, ids)
    requires forall j :: 0 <= j < |onRoad| ==> onRoad[j].id in ids
    requires Ascending(onRoad)
    ensures Consistent(CheckNeighbours(onRoad, i, road, draws, t), ids)
    ensures Grows(t, CheckNeighbours(onRoad, i, road, draws, t))
    decreases |onRoad| - i
  {
    if i + 1 < |onRoad| {
      var v := Visit(t, onRoad[i], onRoad[i + 1], road, draws);
      assert Consistent(v, ids);
      CheckNeighboursKeeps(onRoad, i + 1, road, draws, v, ids);
    }
  }

  /** The pair loop adds exactly the keys of the neighbour pairs it walks
      over; a segment with fewer than two cars changes nothing. */
  lemma {:induction false} CheckNeighboursAdds(onRoad: seq<Car>, i: nat, road: Road, draws: nat -> Draw, t: Tally)
    ensures CheckNeighbours(onRoad, i, road, draws, t).checked == t.checked + AdjacentKeys(onRoad, i)
    ensures |onRoad| <= 1 ==> CheckNeighbours(onRoad, i, road, draws, t) == t
    decreases |onRoad| - i
  {
    if i + 1 < |onRoad| {
      var v := Visit(t, onRoad[i], onRoad[i + 1], road, draws);
      CheckNeighboursAdds(onRoad, i + 1, road, draws, v);
      assert AdjacentKeys(onRoad, i) == {NeighbourKey(onRoad, i)} + AdjacentKeys(onRoad, i + 1);
    } else {
      assert AdjacentKeys(onRoad, i) == {};
    }
  }

  /** The keys of all neighbour pairs on segments `r` .. `roadLen - 1`. */
  ghost function TickKeys(cars: seq<Car>, pos: seq<nat>, roadLen: nat, r: nat): set<Key>
    requires |pos| == |cars|
    decreases roadLen - r
  {
    if r < roadLen then AdjacentKeys(OnSegment(cars, pos, r), 0) + TickKeys(cars, pos, roadLen, r + 1) else {}
  }

  /** One tick's pass over the road keeps the tally consistent and only grows it. */
  lemma {:induction false} CheckSegmentsKeeps(cars: seq<Car>, pos: seq<nat>, road: seq<Road>, r: nat, draws: nat -> Draw, t: Tally)
    requires |pos| == |cars| && DistinctIds(cars)
    requires Consistent(t, Ids(cars))
    ensures Consistent(CheckSegments(cars, pos, road, r, draws, t), Ids(cars))
    ensures Grows(t, CheckSegments(cars, pos, road, r, draws, t))
    decreases |road| - r
  {
    if r < |road| {
      var s := OnSegment(cars, pos, r);
      OnSegmentFacts(cars, pos, r);
      forall j | 0 <= j < |s| ensures s[j].id in Ids(cars) {
        var i :| 0 <= i < |cars| && cars[i] == s[j] && pos[i] == r;
      }
      CheckNeighboursKeeps(s, 0, road[r], draws, t, Ids(cars));
      CheckSegmentsKeeps(cars, pos, road, r + 1, draws, CheckNeighbours(s, 0, road[r], draws, t));
    }
  }

  /** One tick's pass adds exactly the keys of the neighbour pairs on every
      segment from `r` on. */
  lemma {:induction false} CheckSegmentsAdds(cars: seq<Car>, pos: seq<nat>, road: seq<Road>, r: nat, draws: nat -> Draw, t: Tally)
    requires |pos| == |cars|
    ensures CheckSegments(cars, pos, road, r, draws, t).checked == t.checked + TickKeys(cars, pos, |road|, r)
    decreases |road| - r
  {
    if r < |road| {
      var s := OnSegment(cars, pos, r);
      var u := CheckNeighbours(s, 0, road[r], draws, t);
      CheckNeighboursAdds(s, 0, road[r], draws, t);
      CheckSegmentsAdds(cars, pos, road, r + 1, draws, u);
      assert CheckSegments(cars, pos, road, r, draws, t) == CheckSegments(cars, pos, road, r + 1, draws, u);
      assert TickKeys(cars, pos, |road|, r) == AdjacentKeys(s, 0) + TickKeys(cars, pos, |road|, r + 1);
      assert u.checked + TickKeys(cars, pos, |road|, r + 1) == t.checked + TickKeys(cars, pos, |road|, r);
    }
  }

  /** A segment on which no pair can collide: the entrance or the exit. */
  predicate RiskFree(road: Road)
  {
    road.roadType == Input || road.roadType == Output
  }

  /** On a risk-free segment the pair loop counts no collision: every pair it
      evaluates is a safe pass. */
  lemma {:induction false} RiskFreeNeighbours(onRoad: seq<Car>, i: nat, road: Road, draws: nat -> Draw, t: Tally)
    requires RiskFree(road)
    ensures CheckNeighbours(onRoad, i, road, draws, t).collisions == t.collisions
    decreases |onRoad| - i
  {
    if i + 1 < |onRoad| {
      ZeroRiskNeverCollides(onRoad[i], onRoad[i + 1], road, draws(t.collisions + t.safePasses));
      RiskFreeNeighbours(onRoad, i + 1, road, draws, Visit(t, onRoad[i], onRoad[i + 1], road, draws));
    }
  }

  /** On a road of risk-free segments one tick's pass counts no collision. */
  lemma {:induction false} RiskFreeSegments(cars: seq<Car>, pos: seq<nat>, road: seq<Road>, r: nat, draws: nat -> Draw, t: Tally)
    requires |pos| == |cars|
    requires forall k :: 0 <= k < |road| ==> RiskFree(road[k])
    ensures CheckSegments(cars, pos, road, r, draws, t).collisions == t.collisions
    decreases |road| - r
  {
    if r < |road| {
      var u := CheckNeighbours(OnSegment(cars, pos, r), 0, road[r], draws, t);
      RiskFreeNeighbours(OnSegment(cars, pos, r), 0, road[r], draws, t);
      RiskFreeSegments(cars, pos, road, r + 1, draws, u);
    }
  }

  /** Cars `a` and `b` are both at segment `r`, `a` has the smaller id, and no
      car at `r` has an id between theirs. */
  ghost predicate Neighbours(cars: seq<Car>, pos: seq<nat>, r: nat, a: nat, b: nat)
    requires |pos| == |cars|
  {
    && a < |cars| && b < |cars|
    && pos[a] == r && pos[b] == r
    && cars[a].id < cars[b].id
    && forall k :: 0 <= k < |cars| && pos[k] == r ==> !(cars[a].id < cars[k].id < cars[b].id)
  }

  /** Within a tick, every pair a segment contributes is a pair of neighbours by id. */
  lemma AdjacentKeysAreNeighbours(cars: seq<Car>, pos: seq<nat>, r: nat, key: Key)
    requires |pos| == |cars| && DistinctIds(cars)
    requires key in AdjacentKeys(OnSegment(cars, pos, r), 0)
    ensures exists a: nat, b: nat :: Neighbours(cars, pos, r, a, b) && key == (cars[a].id, cars[b].id)
  {
    var s := OnSegment(cars, pos, r);
    OnSegmentFacts(cars, pos, r);
    var j: nat :| j + 1 < |s| && key == NeighbourKey(s, j);
    var a :| 0 <= a < |cars| && cars[a] == s[j] && pos[a] == r;
    var b :| 0 <= b < |cars| && cars[b] == s[j + 1] && pos[b] == r;
    forall k | 0 <= k < |cars| && pos[k] == r ensures !(cars[a].id < cars[k].id < cars[b].id) {
      NoCarBetween(cars, pos, r, j, k);
    }
    assert Neighbours(cars, pos, r, a, b);
  }

  /** In a list sorted by id, two entries with no id between them are adjacent. */
  lemma AdjacentInAscending(s: seq<Car>, m: nat, n: nat)
    requires Ascending(s) && m < |s| && n < |s| && s[m].id < s[n].id
    requires forall k :: 0 <= k < |s| ==> !(s[m].id < s[k].id < s[n].id)
    ensures n == m + 1
  {
    AscendingOrder(s, m, n);
  }

  lemma AscendingOrder(s: seq<Car>, m: nat, n: nat)
    requires Ascending(s) && m < |s| && n < |s|
    ensures n <= m ==> s[n].id <= s[m].id
    ensures m + 1 < n ==> s[m].id < s[m + 1].id < s[n].id
  {
  }

  /** Within a tick, every pair of neighbours by id on a segment is among the
      pairs that segment contributes. */
  lemma NeighboursAreAdjacentKeys(cars: seq<Car>, pos: seq<nat>, r: nat, a: nat, b: nat)
    requires |pos| == |cars| && DistinctIds(cars)
    requires Neighbours(cars, pos, r, a, b)
    ensures (cars[a].id, cars[b].id) in AdjacentKeys(OnSegment(cars, pos, r), 0)
  {
    var s := OnSegment(cars, pos, r);
    OnSegmentFacts(cars, pos, r);
    var m :| 0 <= m < |s| && s[m] == cars[a];
    var n :| 0 <= n < |s| && s[n] == cars[b];
    forall k | 0 <= k < |s| ensures !(s[m].id < s[k].id < s[n].id) {
      var c :| 0 <= c < |cars| && cars[c] == s[k] && pos[c] == r;
    }
    AdjacentInAscending(s, m, n);
    assert (cars[a].id, cars[b].id) == NeighbourKey(s, m);
  }
}
