/** Building the fleet and shuffling it. The random speeds and the random
    shuffle are inputs: `speeds[k]` is the speed drawn for the car with id k,
    and `perm` is the order the shuffle produced. */
module Fleet {
  import opened Cars

  /** No two cars share an id (so no car occurs twice either). */
  ghost predicate DistinctIds(cars: seq<Car>)
  {
    forall i, j :: 0 <= i < |cars| && 0 <= j < |cars| && i != j ==> cars[i].id != cars[j].id
  }

  /** The ids of a fleet. */
  ghost function Ids(cars: seq<Car>): set<nat>
  {
    set i | 0 <= i < |cars| :: cars[i].id
  }

  /** Distinct ids: as many ids as cars. */
  lemma {:induction false} IdsCard(cars: seq<Car>)
    requires DistinctIds(cars)
    ensures |Ids(cars)| == |cars|
  {
    if cars != [] {
      var n := |cars| - 1;
      var init := cars[..n];
      assert DistinctIds(init);
      IdsCard(init);
      assert Ids(cars) == Ids(init) + {cars[n].id} by {
        forall i | 0 <= i < |cars| ensures cars[i].id in Ids(init) + {cars[n].id} {
          if i < n { assert init[i] == cars[i]; }
        }
        forall i | 0 <= i < n ensures init[i].id in Ids(cars) {
          assert init[i] == cars[i];
        }
      }
      assert cars[n].id !in Ids(init) by {
        forall i | 0 <= i < n ensures init[i].id != cars[n].id {
          assert init[i] == cars[i];
        }
      }
    }
  }

  /** One `cars.extend((0..count).map(..))` of the source: `count` new cars with
      the next ids, at index 0, with their drawn speeds. Both calls in the
      source pass `false` for the rule-breaker flag. */
  method Extend(cars: seq<Car>, nextId: nat, count: nat, speeds: seq<nat>)
    returns (extended: seq<Car>, next: nat)
    requires nextId + count <= |speeds|
    ensures next == nextId + count
    ensures |extended| == |cars| + count && extended[..|cars|] == cars
    ensures forall j :: |cars| <= j < |extended| ==>
      && fresh(extended[j])
      && extended[j].id == nextId + (j - |cars|)
      && extended[j].currentRoadIndex == 0
      && extended[j].speed == speeds[nextId + (j - |cars|)]
      && !extended[j].isRuleBreaker
  {
    extended, next := cars, nextId;
    for k := 0 to count
      invariant next == nextId + k
      invariant |extended| == |cars| + k && extended[..|cars|] == cars
      invariant forall j :: |cars| <= j < |extended| ==>
        && fresh(extended[j])
        && extended[j].id == nextId + (j - |cars|)
        && extended[j].currentRoadIndex == 0
        && extended[j].speed == speeds[nextId + (j - |cars|)]
        && !extended[j].isRuleBreaker
    {
      var car := new Car(false, 0, speeds[next], next);
      next := next + 1;
      extended := extended + [car];
    }
  }

  /** The source's fleet: the lawful cars, then the rule-breaking share, ids
      0, 1, 2, ... in creation order, every car at index 0 with its drawn speed.
      Both branches on `basePoint` are identical in the source, and both create
      every car with `isRuleBreaker == false`; the model keeps that, so the
      fleet built here contains no rule-breaker whatever the percentage. */
  method BuildFleet(lawfulCars: nat, ruleBreakingCars: nat, topSpeed: nat, basePoint: bool, speeds: seq<nat>)
    returns (cars: seq<Car>)
    requires |speeds| == lawfulCars + ruleBreakingCars
    requires forall k :: 0 <= k < |speeds| ==> 1 <= speeds[k] <= topSpeed
    ensures |cars| == lawfulCars + ruleBreakingCars
    ensures forall k :: 0 <= k < |cars| ==>
      && fresh(cars[k])
      && cars[k].id == k
      && cars[k].currentRoadIndex == 0
      && 1 <= cars[k].speed <= topSpeed
      && cars[k].speed == speeds[k]
      && !cars[k].isRuleBreaker
    ensures DistinctIds(cars)
  {
    var nextId := 0;
    cars := [];
    if basePoint {
      cars, nextId := Extend(cars, nextId, lawfulCars, speeds);
      cars, nextId := Extend(cars, nextId, ruleBreakingCars, speeds);
    } else {
      cars, nextId := Extend(cars, nextId, lawfulCars, speeds);
      cars, nextId := Extend(cars, nextId, ruleBreakingCars, speeds);
    }
  }

  /** `perm` lists each of 0 .. n-1 exactly once. */
  ghost predicate IsPermutation(perm: seq<nat>, n: nat)
  {
    && |perm| == n
    && (forall i :: 0 <= i < n ==> perm[i] < n)
    && (forall i, j :: 0 <= i < j < n ==> perm[i] != perm[j])
    && (forall k :: 0 <= k < n ==> k in perm)
  }

  /** `cars.shuffle(..)` with the shuffle's outcome given as `perm`: the same
      cars, each once, in a new order. */
  function Shuffled(cars: seq<Car>, perm: seq<nat>): (shuffled: seq<Car>)
    requires IsPermutation(perm, |cars|)
    ensures |shuffled| == |cars|
    ensures forall i :: 0 <= i < |shuffled| ==> shuffled[i] == cars[perm[i]]
    ensures forall k :: 0 <= k < |cars| ==> cars[k] in shuffled
    ensures Ids(shuffled) == Ids(cars)
    ensures DistinctIds(cars) ==> DistinctIds(shuffled)
  {
    var shuffled := seq(|cars|, i requires 0 <= i < |cars| => cars[perm[i]]);
    assert forall k :: 0 <= k < |cars| ==> cars[k] in shuffled by {
      forall k | 0 <= k < |cars| ensures cars[k] in shuffled {
        assert k in perm;
        var i :| 0 <= i < |perm| && perm[i] == k;
        assert shuffled[i] == cars[k];
      }
    }
    shuffled
  }
}
