/** The per-type risk table and the pairwise collision test. */
module SimChecks {
  import opened Roads
  import opened Cars

  /** The risk table: total over the closed enum. Exactly the two end segments
      carry no risk at all, and School Zone holds the largest entries. */
  function GetCollisionInfo(roadType: RoadType): (info: RoadCollisionInfo)
    ensures info.baseRisk == 0 <==> roadType == Input || roadType == Output
    ensures info.ruleBreakerPenalty == 0 <==> roadType == Input || roadType == Output
    ensures info.baseRisk <= 25 && info.ruleBreakerPenalty <= 60
    ensures info.baseRisk <= info.ruleBreakerPenalty
  {
    match roadType
    case NoSignalIntersection => RoadCollisionInfo(45, 15)
    case SignalIntersection => RoadCollisionInfo(25, 5)
    case PedestrianCrossing => RoadCollisionInfo(50, 20)
    case Roundabout => RoadCollisionInfo(30, 10)
    case MergeLane => RoadCollisionInfo(35, 12)
    case ExitRamp => RoadCollisionInfo(15, 5)
    case HighwaySegment => RoadCollisionInfo(10, 3)
    case SchoolZone => RoadCollisionInfo(60, 25)
    case ConstructionZone => RoadCollisionInfo(40, 18)
    case TollBooth => RoadCollisionInfo(20, 8)
    case Input | Output => RoadCollisionInfo(0, 0)
  }

  /** How many of two cars are flagged as rule-breakers. */
  function RuleBreakers(oneBreaks: bool, twoBreaks: bool): (n: nat)
    ensures n <= 2
    ensures n == 0 <==> !oneBreaks && !twoBreaks
    ensures n == 2 <==> oneBreaks && twoBreaks
  {
    (if oneBreaks then 1 else 0) + (if twoBreaks then 1 else 0)
  }

  /** The odds, built as the source builds them: start at the base risk and add
      the penalty once per rule-breaking car. The result is never capped. */
  function Odds(info: RoadCollisionInfo, oneBreaks: bool, twoBreaks: bool): (odds: nat)
    ensures odds == info.baseRisk + info.ruleBreakerPenalty * RuleBreakers(oneBreaks, twoBreaks)
  {
    var afterOne := if oneBreaks then info.baseRisk + info.ruleBreakerPenalty else info.baseRisk;
    if twoBreaks then afterOne + info.ruleBreakerPenalty else afterOne
  }

  /** `collision_check` with its random draw passed in: the pair collides
      exactly when the draw lies strictly below the odds. */
  function CollisionCheck(carOne: Car, carTwo: Car, road: Road, value: nat): (collides: bool)
    requires value <= 100
    ensures collides <==>
      value < GetCollisionInfo(road.roadType).baseRisk
              + GetCollisionInfo(road.roadType).ruleBreakerPenalty * RuleBreakers(carOne.isRuleBreaker, carTwo.isRuleBreaker)
  {
    var odds := Odds(GetCollisionInfo(road.roadType), carOne.isRuleBreaker, carTwo.isRuleBreaker);
    odds > value
  }

  /** On the two risk-free segments no draw and no flag combination collides,
      because the comparison is strict. */
  lemma ZeroRiskNeverCollides(carOne: Car, carTwo: Car, road: Road, value: nat)
    requires value <= 100
    requires road.roadType == Input || road.roadType == Output
    ensures !CollisionCheck(carOne, carTwo, road, value)
  {
  }

  /** Two rule-breakers in a School Zone face odds 25 + 2 * 60 = 145, above every draw. */
  lemma SchoolZoneSaturates(carOne: Car, carTwo: Car, road: Road, value: nat)
    requires value <= 100
    requires road.roadType == SchoolZone
    requires carOne.isRuleBreaker && carTwo.isRuleBreaker
    ensures Odds(GetCollisionInfo(road.roadType), true, true) == 145
    ensures CollisionCheck(carOne, carTwo, road, value)
  {
  }

  /** The order of the two cars does not matter. */
  lemma CollisionCheckSymmetric(carOne: Car, carTwo: Car, road: Road, value: nat)
    requires value <= 100
    ensures CollisionCheck(carOne, carTwo, road, value) == CollisionCheck(carTwo, carOne, road, value)
  {
  }

  /** More rule-breakers never lower the odds. */
  lemma OddsMonotone(info: RoadCollisionInfo, oneBreaks: bool, twoBreaks: bool, otherOne: bool, otherTwo: bool)
    requires RuleBreakers(oneBreaks, twoBreaks) <= RuleBreakers(otherOne, otherTwo)
    ensures Odds(info, oneBreaks, twoBreaks) <= Odds(info, otherOne, otherTwo)
  {
  }
}
