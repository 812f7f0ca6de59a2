/** A concrete run: two lawful cars of speed 2 with ids 0 and 1, both at the
    entrance of a two-segment road (entrance then exit). */
module Scenario {
  import opened Roads
  import opened Cars
  import opened SimChecks
  import opened Segments
  import opened Pairing
  import opened Motion
  import opened Engine

  /** The one tick evaluates the single pair on the entrance, where the risk is
      zero, so it is a safe pass whatever the draw; both cars then leave, and
      the halved report rounds the single safe pass up to one. */
  lemma TwoCarsOnShortRoad(one: Car, two: Car, draws: nat -> Draw)
    requires one.id == 0 && two.id == 1 && one.speed == 2 && two.speed == 2
    requires !one.isRuleBreaker && !two.isRuleBreaker
    ensures var o := Run([one, two], [0, 0], [Road(Input), Road(Output)], draws, Tally({}, 0, 0), 0);
      && o == Outcome(Tally({(0, 1)}, 0, 1), 1, [2, 2])
      && ReportedSafePasses(o.tally.safePasses) == 1
  {
    var cars, pos, road := [one, two], [0, 0], [Road(Input), Road(Output)];
    assert InMotion(cars, pos, |road|, 0);
    assert Moved(cars, pos, |road|) == [2, 2];
    RunEnd(cars, pos, road, draws, Tally({}, 0, 0), 0);
    ShortRoadTick(one, two, draws);
  }

  /** The tick of that run: one safe pass on the entrance, nothing on the exit. */
  lemma ShortRoadTick(one: Car, two: Car, draws: nat -> Draw)
    requires one.id == 0 && two.id == 1
    ensures CheckSegments([one, two], [0, 0], [Road(Input), Road(Output)], 0, draws, Tally({}, 0, 0))
      == Tally({(0, 1)}, 0, 1)
  {
    var cars, pos, road := [one, two], [0, 0], [Road(Input), Road(Output)];
    var t0, t1 := Tally({}, 0, 0), Tally({(0, 1)}, 0, 1);
    ShortRoadSegments(one, two);
    ZeroRiskNeverCollides(one, two, road[0], draws(0));
    assert Visit(t0, one, two, road[0], draws) == t1;
    assert CheckNeighbours([one, two], 0, road[0], draws, t0) == t1;
    assert CheckSegments(cars, pos, road, 1, draws, t1) == t1;
  }

  /** Both cars on the entrance, in id order, and none on the exit. */
  lemma ShortRoadSegments(one: Car, two: Car)
    requires one.id == 0 && two.id == 1
    ensures OnSegment([one, two], [0, 0], 0) == [one, two]
    ensures OnSegment([one, two], [0, 0], 1) == []
  {
    var cars, pos := [one, two], [0, 0];
    assert cars[..1] == [one] && pos[..1] == [0];
    assert [one][..0] == [] && [0][..0] == [];
    assert OnSegment([], [], 0) == [] && OnSegment([], [], 1) == [];
    assert OnSegment([one], [0], 0) == Insert(one, []) == [one];
    assert OnSegment([one], [0], 1) == [];
    assert Insert(two, []) == [two];
    assert Insert(two, [one]) == [one] + Insert(two, [one][1..]);
    assert OnSegment(cars, pos, 0) == Insert(two, [one]);
  }
}
