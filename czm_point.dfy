/** A sample point on a face: its position, whether it lies on an edge or in
    the interior, and the edge it belongs to. The engine holds a pointer to
    the edge; here the reference is the edge's index in the face's edge
    sequence, and `None` stands for the null pointer. */
module Points {
  import opened Vec3

  datatype PointType = EdgePoint | InteriorPoint

  datatype Option<T> = None | Some(value: T)

  /** `getPosition`, `getType` and `getEdge` read the three fields. */
  class CzmPoint {
    var position: Vec3D
    var pointType: PointType
    var edge: Option<nat>

    /** Stores the position and the type; a new point refers to no edge. */
    constructor(position: Vec3D, pointType: PointType)
      ensures this.position == position
      ensures this.pointType == pointType
      ensures edge == None
    {
      this.position := position;
      this.pointType := pointType;
      edge := None;
    }

    /** Replaces the edge reference and nothing else. */
    method SetEdge(e: Option<nat>)
      modifies this
      ensures edge == e
      ensures position == old(position) && pointType == old(pointType)
    {
      edge := e;
    }
  }

  /** No point occurs twice in `ps`: each one is an object of its own. */
  predicate Distinct(ps: seq<CzmPoint>) {
    forall i, j :: 0 <= i < j < |ps| ==> ps[i] != ps[j]
  }

  /** A point not yet among distinct points keeps them distinct. */
  lemma DistinctSnoc(ps: seq<CzmPoint>, p: CzmPoint)
    requires p !in ps
    ensures Distinct(ps + [p]) <==> Distinct(ps)
  {
    assert forall i :: 0 <= i < |ps| ==> (ps + [p])[i] == ps[i];
  }

  /** The positions of a sequence of points, in order. */
  function Positions(ps: seq<CzmPoint>): (r: seq<Vec3D>)
    reads set i | 0 <= i < |ps| :: ps[i]
    ensures |r| == |ps|
    ensures forall i :: 0 <= i < |ps| ==> r[i] == ps[i].position
  {
    if ps == [] then [] else Positions(ps[..|ps| - 1]) + [ps[|ps| - 1].position]
  }
}
