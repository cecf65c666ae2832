/** The constant neighbour offset tables of SourceAFIS.General.Neighborhood. */
module Neighborhood {
  import opened Geometry

  /** The four neighbours sharing an edge with a cell. */
  const EdgeNeighbors: seq<Point> := [Point(0, -1), Point(-1, 0), Point(1, 0), Point(0, 1)]

  /** The eight neighbours sharing an edge or a corner with a cell. */
  const CornerNeighbors: seq<Point> := [
    Point(-1, -1), Point(0, -1), Point(1, -1),
    Point(-1, 0), Point(1, 0),
    Point(-1, 1), Point(0, 1), Point(1, 1)
  ]

  function Abs(v: int): nat { if v < 0 then -v else v }

  function Negate(p: Point): Point { Point(-p.X, -p.Y) }

  predicate Distinct(s: seq<Point>)
  {
    forall i, j :: 0 <= i < j < |s| ==> s[i] != s[j]
  }

  /** The corner table lists, once each, every offset in {-1, 0, 1}^2 but (0, 0). */
  lemma CornerNeighborsAreTheRing()
    ensures |CornerNeighbors| == 8 && Distinct(CornerNeighbors)
    ensures forall p :: p in CornerNeighbors <==> Abs(p.X) <= 1 && Abs(p.Y) <= 1 && p != Point(0, 0)
  {
  }

  /** The edge table lists, once each, the four offsets at Manhattan distance one. */
  lemma EdgeNeighborsAreTheCross()
    ensures |EdgeNeighbors| == 4 && Distinct(EdgeNeighbors)
    ensures forall p :: p in EdgeNeighbors <==> Abs(p.X) + Abs(p.Y) == 1
  {
  }

  lemma EdgeNeighborsAreCornerNeighbors()
    ensures forall p :: p in EdgeNeighbors ==> p in CornerNeighbors
  {
  }

  lemma NeighborhoodsAreSymmetric()
    ensures forall p :: p in EdgeNeighbors ==> Negate(p) in EdgeNeighbors
    ensures forall p :: p in CornerNeighbors ==> Negate(p) in CornerNeighbors
  {
  }
}
