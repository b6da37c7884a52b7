/**
 * The Road helper of the city: a segment given by copies of its two end
 * points and the vector from start to end. Its vectors are values, so a
 * road never shares storage with the vectors it was built from.
 */
module Roads {
  import opened Options
  import opened Vectors

  datatype Road = Road(start: Vec2, end: Vec2, roadVec: Vec2)

  /**
   * The Road constructor: a missing end point defaults to (0, 0); the
   * direction vector is end - start.
   */
  function NewRoad(start: Option<Vec2>, end: Option<Vec2>): (r: Road)
    ensures start.Some? ==> r.start == start.value
    ensures start.None? ==> r.start == Origin
    ensures end.Some? ==> r.end == end.value
    ensures end.None? ==> r.end == Origin
    ensures Add(r.start, r.roadVec) == r.end
  {
    var s := if start.None? then Vec2(0.0, 0.0) else start.value;
    var e := if end.None? then Vec2(0.0, 0.0) else end.value;
    Road(s, e, Sub(e, s))
  }

  /** The road direction is the only vector that carries start onto end. */
  lemma RoadVecUnique(r: Road, v: Vec2)
    requires r == NewRoad(Some(r.start), Some(r.end))
    ensures Add(r.start, v) == r.end <==> v == r.roadVec
  {
  }

  /** Road.floor: Math.floor on each component. */
  function Floor(v: Vec2): (r: Vec2)
    ensures IsIntegral(r.x) && IsIntegral(r.y)
    ensures r.x <= v.x < r.x + 1.0
    ensures r.y <= v.y < r.y + 1.0
  {
    Vec2(v.x.Floor as real, v.y.Floor as real)
  }

  /** A vector with whole components is its own floor. */
  lemma FloorOfIntegral(v: Vec2)
    requires IsIntegral(v.x) && IsIntegral(v.y)
    ensures Floor(v) == v
  {
  }

  /** Flooring twice is flooring once. */
  lemma FloorIdempotent(v: Vec2)
    ensures Floor(Floor(v)) == Floor(v)
  {
    FloorOfIntegral(Floor(v));
  }

  /** The road that drawRoadGrid pushes: from (0, 0) to (1, 1). */
  const GridRoad: Road := NewRoad(Some(Vec2(0.0, 0.0)), Some(Vec2(1.0, 1.0)))

  /** The three roads that one drawRoadGrid call appends. */
  const GridRoads: seq<Road> := [GridRoad, GridRoad, GridRoad]

  lemma GridRoadsShape()
    ensures |GridRoads| == 3
    ensures forall r | r in GridRoads ::
      r.start == Vec2(0.0, 0.0) && r.end == Vec2(1.0, 1.0) && r.roadVec == Vec2(1.0, 1.0)
    ensures forall r | r in GridRoads ::
      Floor(r.start) == Vec2(0.0, 0.0) && Floor(r.end) == Vec2(1.0, 1.0)
  {
  }
}
