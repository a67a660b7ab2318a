/**
 * The geometry of the intrusion check (src/geometry_utils.py): the centre of a
 * detection box, an inclusive point-in-polygon test, and the list of zones that
 * contain a point.
 */
module Geometry {

  /** A pixel position with integer coordinates: a box centre or a polygon vertex. */
  datatype Point = Point(x: int, y: int)

  /** An axis-aligned box as the detector reports it, corners (x1, y1) and (x2, y2). */
  datatype BBox = BBox(x1: real, y1: real, x2: real, y2: real)

  /** A restricted zone: its id and its polygon's vertices in order (the last joins the first). */
  datatype Zone = Zone(id: int, points: seq<Point>)

  /** Python's `int(r)` on a number: truncation toward zero. */
  function TruncateToInt(r: real): (n: int)
    ensures 0.0 <= r ==> n as real <= r < n as real + 1.0
    ensures r < 0.0 ==> n as real - 1.0 < r <= n as real
  {
    if r >= 0.0 then r.Floor else -((-r).Floor)
  }

  /** The single point of a box that is tested against the zones. */
  function BBoxCenter(b: BBox): (c: Point)
    ensures 0.0 <= b.x1 + b.x2 ==> c.x as real <= (b.x1 + b.x2) / 2.0 < c.x as real + 1.0
    ensures 0.0 <= b.y1 + b.y2 ==> c.y as real <= (b.y1 + b.y2) / 2.0 < c.y as real + 1.0
    ensures b.x1 + b.x2 < 0.0 ==> c.x as real - 1.0 < (b.x1 + b.x2) / 2.0 <= c.x as real
    ensures b.y1 + b.y2 < 0.0 ==> c.y as real - 1.0 < (b.y1 + b.y2) / 2.0 <= c.y as real
  {
    Point(TruncateToInt((b.x1 + b.x2) / 2.0), TruncateToInt((b.y1 + b.y2) / 2.0))
  }

  /** The centre is truncated, not rounded: half a pixel is dropped. */
  lemma CenterTruncates()
    ensures BBoxCenter(BBox(0.0, 0.0, 10.0, 11.0)) == Point(5, 5)
  {
  }

  /** For a well-ordered box in the first quadrant the centre lies within the box. */
  lemma CenterWithinBox(b: BBox)
    requires 0.0 <= b.x1 <= b.x2 && 0.0 <= b.y1 <= b.y2
    ensures b.x1.Floor <= BBoxCenter(b).x <= b.x2.Floor
    ensures b.y1.Floor <= BBoxCenter(b).y <= b.y2.Floor
  {
  }

  function Min(a: int, b: int): (m: int) { if a <= b then a else b }

  function Max(a: int, b: int): (m: int) { if a <= b then b else a }

  /** Twice the signed area of the triangle a, b, p: positive when p is left of the line a to b. */
  function Cross(a: Point, b: Point, p: Point): (area2: int) {
    (b.x - a.x) * (p.y - a.y) - (b.y - a.y) * (p.x - a.x)
  }

  /** p lies on the closed segment from a to b. */
  predicate OnSegment(p: Point, a: Point, b: Point) {
    && Cross(a, b, p) == 0
    && Min(a.x, b.x) <= p.x <= Max(a.x, b.x)
    && Min(a.y, b.y) <= p.y <= Max(a.y, b.y)
  }

  /** The index of the vertex that follows vertex i around a polygon of n vertices. */
  function Succ(i: nat, n: nat): (j: nat)
    requires i < n
    ensures j < n
  {
    if i + 1 == n then 0 else i + 1
  }

  /** p lies on some edge of the polygon, the closing edge included. */
  predicate OnBoundary(p: Point, poly: seq<Point>) {
    exists i :: 0 <= i < |poly| && OnSegment(p, poly[i], poly[Succ(i, |poly|)])
  }

  /** The edge from a to b has one end strictly above p's row and the other not (half-open rule). */
  predicate Straddles(p: Point, a: Point, b: Point) {
    (a.y > p.y) != (b.y > p.y)
  }

  /**
   * The horizontal ray from p towards +x crosses the edge from a to b: the edge
   * straddles p's row and p is left of it, seen along the edge's upward direction.
   */
  predicate Crosses(p: Point, a: Point, b: Point) {
    Straddles(p, a, b) && if b.y > a.y then Cross(a, b, p) > 0 else Cross(a, b, p) < 0
  }

  /** How many of the polygon's first k edges the ray from p crosses. */
  function Crossings(p: Point, poly: seq<Point>, k: nat): (count: nat)
    requires k <= |poly|
  {
    if k == 0 then 0
    else Crossings(p, poly, k - 1) + if Crosses(p, poly[k - 1], poly[Succ(k - 1, |poly|)]) then 1 else 0
  }

  /**
   * The inclusive containment test: a point on the boundary is inside, otherwise
   * a point is inside when its ray crosses the boundary an odd number of times.
   * Polygons with fewer than three vertices are not given a meaning.
   */
  predicate PointInPolygon(p: Point, poly: seq<Point>)
    requires |poly| >= 3
    ensures OnBoundary(p, poly) ==> PointInPolygon(p, poly)
  {
    OnBoundary(p, poly) || Crossings(p, poly, |poly|) % 2 == 1
  }

  /** Containment is inclusive: every point of every edge is inside. */
  lemma BoundaryIsInside(p: Point, poly: seq<Point>, i: nat)
    requires |poly| >= 3 && i < |poly|
    requires OnSegment(p, poly[i], poly[Succ(i, |poly|)])
    ensures PointInPolygon(p, poly)
  {
  }

  /** In particular every vertex is inside. */
  lemma VertexIsInside(poly: seq<Point>, i: nat)
    requires |poly| >= 3 && i < |poly|
    ensures PointInPolygon(poly[i], poly)
  {
    assert Cross(poly[i], poly[Succ(i, |poly|)], poly[i]) == 0;
    BoundaryIsInside(poly[i], poly, i);
  }

  /** A point strictly right of both ends of an edge is never crossed by its ray. */
  lemma RightOfEdge(p: Point, a: Point, b: Point)
    requires p.x > a.x && p.x > b.x
    ensures !Crosses(p, a, b)
  {
    var u, dx, v, dy := p.x - a.x, b.x - a.x, p.y - a.y, b.y - a.y;
    if Straddles(p, a, b) {
      if dy > 0 {
        // a is at or below p's row and b above: 0 <= v < dy
        assert dx * v <= u * v;
        assert u * v < u * dy;
        assert Cross(a, b, p) == dx * v - dy * u;
      } else {
        // a is above p's row and b at or below: dy <= v < 0
        assert dx * v > u * v;
        assert u * (v - dy) >= 0;
        assert Cross(a, b, p) == dx * v - dy * u;
      }
    }
  }

  /** A point strictly left of both ends of an edge is crossed exactly when the edge straddles its row. */
  lemma LeftOfEdge(p: Point, a: Point, b: Point)
    requires p.x < a.x && p.x < b.x
    ensures Crosses(p, a, b) == Straddles(p, a, b)
  {
    var u, dx, v, dy := p.x - a.x, b.x - a.x, p.y - a.y, b.y - a.y;
    if Straddles(p, a, b) {
      if dy > 0 {
        // 0 <= v < dy and u < 0 < dx - u
        assert dx * v >= u * v;
        assert dy * u < v * u;
        assert Cross(a, b, p) == dx * v - dy * u;
      } else {
        // dy <= v < 0 and u < 0 < dx - u
        assert dx * v < u * v;
        assert dy * u >= v * u;
        assert Cross(a, b, p) == dx * v - dy * u;
      }
    }
  }

  /** When no edge among the first k is crossed the count is zero. */
  lemma {:induction false} NoCrossings(p: Point, poly: seq<Point>, k: nat)
    requires k <= |poly|
    requires forall i :: 0 <= i < k ==> !Crosses(p, poly[i], poly[Succ(i, |poly|)])
    ensures Crossings(p, poly, k) == 0
  {
    if k > 0 {
      NoCrossings(p, poly, k - 1);
    }
  }

  /**
   * For a point left of every vertex, the open chain of edges from vertex 0 to
   * vertex k - 1 is crossed an even number of times exactly when both ends lie
   * on the same side of the point's row.
   */
  lemma {:induction false} LeftChainParity(p: Point, poly: seq<Point>, k: nat)
    requires 1 <= k <= |poly|
    requires forall i :: 0 <= i < |poly| ==> p.x < poly[i].x
    ensures Crossings(p, poly, k - 1) % 2 == if (poly[0].y > p.y) == (poly[k - 1].y > p.y) then 0 else 1
  {
    if k > 1 {
      LeftChainParity(p, poly, k - 1);
      LeftOfEdge(p, poly[k - 2], poly[k - 1]);
      assert Succ(k - 2, |poly|) == k - 1;
    }
  }

  /** A point left of every vertex is crossed an even number of times around the closed polygon. */
  lemma LeftOfPolygon(p: Point, poly: seq<Point>)
    requires |poly| >= 3
    requires forall i :: 0 <= i < |poly| ==> p.x < poly[i].x
    ensures Crossings(p, poly, |poly|) % 2 == 0
  {
    var n := |poly|;
    LeftChainParity(p, poly, n);
    LeftOfEdge(p, poly[n - 1], poly[0]);
    assert Succ(n - 1, n) == 0;
  }

  /**
   * A point strictly outside the bounding box of the vertices (left of, right of,
   * above or below all of them) is outside the polygon.
   */
  lemma OutsideBoundingBox(p: Point, poly: seq<Point>)
    requires |poly| >= 3
    requires || (forall i :: 0 <= i < |poly| ==> p.x < poly[i].x)
             || (forall i :: 0 <= i < |poly| ==> p.x > poly[i].x)
             || (forall i :: 0 <= i < |poly| ==> p.y < poly[i].y)
             || (forall i :: 0 <= i < |poly| ==> p.y > poly[i].y)
    ensures !PointInPolygon(p, poly)
  {
    var n := |poly|;
    forall i | 0 <= i < n
      ensures !OnSegment(p, poly[i], poly[Succ(i, n)])
    {
      var j := Succ(i, n);
      assert poly[j] == poly[Succ(i, n)];
    }
    if forall i :: 0 <= i < n ==> p.x < poly[i].x {
      LeftOfPolygon(p, poly);
    } else {
      forall i | 0 <= i < n
        ensures !Crosses(p, poly[i], poly[Succ(i, n)])
      {
        var j := Succ(i, n);
        if forall i :: 0 <= i < n ==> p.x > poly[i].x {
          RightOfEdge(p, poly[i], poly[j]);
        }
      }
      NoCrossings(p, poly, n);
    }
  }

  /** The square with corners (0, 0) and (10, 10), vertices listed counter-clockwise. */
  function Square(): (square: seq<Point>) {
    [Point(0, 0), Point(10, 0), Point(10, 10), Point(0, 10)]
  }

  /** The square's centre is inside: its ray crosses the right edge only. */
  lemma SquareContainsCentre()
    ensures PointInPolygon(Point(5, 5), Square())
  {
    var p, sq := Point(5, 5), Square();
    assert !Crosses(p, sq[0], sq[1]);
    assert Crossings(p, sq, 1) == 0;
    assert Crosses(p, sq[1], sq[2]);
    assert Crossings(p, sq, 2) == 1;
    assert !Crosses(p, sq[2], sq[3]);
    assert Crossings(p, sq, 3) == 1;
    assert !Crosses(p, sq[3], sq[0]);
    assert Crossings(p, sq, 4) == 1;
  }

  /** A point of the square's right edge and a corner are inside; a point beyond the right edge is not. */
  lemma SquareBoundaryAndBeyond()
    ensures PointInPolygon(Point(10, 5), Square())
    ensures PointInPolygon(Point(0, 0), Square())
    ensures !PointInPolygon(Point(15, 5), Square())
  {
    var sq := Square();
    assert OnSegment(Point(10, 5), sq[1], sq[2]);
    BoundaryIsInside(Point(10, 5), sq, 1);
    VertexIsInside(sq, 0);
    OutsideBoundingBox(Point(15, 5), sq);
  }

  /** Every zone has a polygon the containment test can be applied to. */
  predicate AllPolygons(zones: seq<Zone>) {
    forall i :: 0 <= i < |zones| ==> |zones[i].points| >= 3
  }

  /** The ids of the zones containing p, in registry order (the specification of CheckPersonInZones). */
  function ZonesContaining(p: Point, zones: seq<Zone>): (ids: seq<int>)
    requires AllPolygons(zones)
    ensures |ids| <= |zones|
  {
    if zones == [] then []
    else
      var last := zones[|zones| - 1];
      var rest := ZonesContaining(p, zones[..|zones| - 1]);
      if PointInPolygon(p, last.points) then rest + [last.id] else rest
  }

  /** The registry positions of the zones containing p, in increasing order. */
  ghost function ContainingIndices(p: Point, zones: seq<Zone>): (indices: seq<nat>)
    requires AllPolygons(zones)
  {
    if zones == [] then []
    else
      var rest := ContainingIndices(p, zones[..|zones| - 1]);
      if PointInPolygon(p, zones[|zones| - 1].points) then rest + [|zones| - 1] else rest
  }

  /**
   * ZonesContaining lists exactly the ids of the containing zones, one per
   * containing zone, in registry order: its k-th id is that of the k-th
   * containing zone.
   */
  lemma {:induction false} ZonesContainingInOrder(p: Point, zones: seq<Zone>)
    requires AllPolygons(zones)
    ensures var ids, idx := ZonesContaining(p, zones), ContainingIndices(p, zones);
      && |ids| == |idx|
      && (forall k :: 0 <= k < |idx| ==> idx[k] < |zones| && ids[k] == zones[idx[k]].id)
      && (forall k, l :: 0 <= k < l < |idx| ==> idx[k] < idx[l])
      && (forall i :: 0 <= i < |zones| ==> (i in idx <==> PointInPolygon(p, zones[i].points)))
  {
    if zones != [] {
      var n := |zones|;
      var front := zones[..n - 1];
      ZonesContainingInOrder(p, front);
      var idx0 := ContainingIndices(p, front);
      assert forall k :: 0 <= k < |idx0| ==> idx0[k] < n - 1;
      assert forall i :: 0 <= i < n - 1 ==> front[i] == zones[i];
    }
  }

  /**
   * Some zone contains p exactly when the list is non-empty, and then its first
   * id is that of the first containing zone in registry order.
   */
  lemma FirstContainingZone(p: Point, zones: seq<Zone>)
    requires AllPolygons(zones)
    ensures var ids := ZonesContaining(p, zones);
      && (ids != [] <==> exists i :: 0 <= i < |zones| && PointInPolygon(p, zones[i].points))
      && (ids != [] ==> exists i :: && 0 <= i < |zones| && zones[i].id == ids[0]
                                  && PointInPolygon(p, zones[i].points)
                                  && forall j :: 0 <= j < i ==> !PointInPolygon(p, zones[j].points))
  {
    ZonesContainingInOrder(p, zones);
    var ids, idx := ZonesContaining(p, zones), ContainingIndices(p, zones);
    if exists i :: 0 <= i < |zones| && PointInPolygon(p, zones[i].points) {
      var i :| 0 <= i < |zones| && PointInPolygon(p, zones[i].points);
      assert i in idx;
    }
    if ids != [] {
      var first := idx[0];
      assert first in idx;
      forall j | 0 <= j < first
        ensures !PointInPolygon(p, zones[j].points)
      {
      }
    }
  }

  /**
   * The source's loop over the registry: every zone whose polygon contains
   * `center` contributes its id, in registry order.
   */
  method CheckPersonInZones(center: Point, zones: seq<Zone>) returns (intersectingZones: seq<int>)
    requires AllPolygons(zones)
    ensures intersectingZones == ZonesContaining(center, zones)
  {
    intersectingZones := [];
    for i := 0 to |zones|
      invariant intersectingZones == ZonesContaining(center, zones[..i])
    {
      assert zones[..i + 1][..i] == zones[..i];
      if PointInPolygon(center, zones[i].points) {
        intersectingZones := intersectingZones + [zones[i].id];
      }
    }
    assert zones[..|zones|] == zones;
  }
}
