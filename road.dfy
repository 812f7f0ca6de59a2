/** Road segments: the segment types, their risk record and the immutable segment wrapper. */
module Roads {

  /** The closed set of segment types; a match over it must cover all twelve. */
  datatype RoadType =
    | Input
    | Output
    | NoSignalIntersection
    | SignalIntersection
    | PedestrianCrossing
    | Roundabout
    | MergeLane
    | ExitRamp
    | HighwaySegment
    | SchoolZone
    | ConstructionZone
    | TollBooth

  /** Risk parameters of a segment type, both percentages. The source stores them
      as unsigned 32-bit integers, so here they are naturals. */
  datatype RoadCollisionInfo = RoadCollisionInfo(ruleBreakerPenalty: nat, baseRisk: nat)

  /** One road segment. A datatype value: it has no mutating operation, so a
      layout built from segments stays as it was built. */
  datatype Road = Road(roadType: RoadType)

  /** `Road::new`. */
  function NewRoad(roadType: RoadType): (road: Road)
    ensures road.roadType == roadType
  {
    Road(roadType)
  }

  /** Every segment type, each exactly once, in declaration order. */
  function AllRoadTypes(): (types: seq<RoadType>)
    ensures |types| == 12
    ensures forall i, j :: 0 <= i < j < |types| ==> types[i] != types[j]
  {
    [Input, Output, NoSignalIntersection, SignalIntersection, PedestrianCrossing, Roundabout,
     MergeLane, ExitRamp, HighwaySegment, SchoolZone, ConstructionZone, TollBooth]
  }

  /** The enum is closed: every segment type is one of the twelve listed. */
  lemma RoadTypeClosed(t: RoadType)
    ensures t in AllRoadTypes()
  {
    match t
    case Input =>
    case Output =>
    case NoSignalIntersection =>
    case SignalIntersection =>
    case PedestrianCrossing =>
    case Roundabout =>
    case MergeLane =>
    case ExitRamp =>
    case HighwaySegment =>
    case SchoolZone =>
    case ConstructionZone =>
    case TollBooth =>
  }
}
