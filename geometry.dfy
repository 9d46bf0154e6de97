/** The small option type used for the nullable node references of the source. */
module Wrappers {
  datatype Option<+T> = None | Some(value: T) {
    /** The value as a list: empty for None, a singleton for Some. */
    function ToSeq(): (s: seq<T>)
      ensures |s| <= 1
      ensures None? ==> s == []
      ensures Some? ==> s == [value]
    {
      match this
      case None => []
      case Some(v) => [v]
    }
  }
}

/**
 * Geometric primitives of the 2D builder: points, segments and triangles.
 * Float coordinates are modelled as exact reals; the floating-point predicates
 * of `Triangle` that are not part of this model are supplied by a `TriangleOracle`.
 */
module Geometry {
  /** A `float2` / `Vector2` coordinate. Equality is by coordinate, as for a dictionary key. */
  datatype Point = Point(x: real, y: real)

  /** A segment between two points; as a value it is ordered, but it is compared as an unordered pair. */
  datatype Segment = Segment(a: Point, b: Point)

  /** A triangle with its three vertices in order. */
  datatype Triangle = Triangle(a: Point, b: Point, c: Point)

  /** Segment equality: {p, q} equals {q, p}. */
  predicate SameSegment(s: Segment, t: Segment) {
    (s.a == t.a && s.b == t.b) || (s.a == t.b && s.b == t.a)
  }

  /** `Triangle.ContainsSegment`: `s` is one of the triangle's three edges, in either orientation. */
  predicate ContainsSegment(t: Triangle, s: Segment) {
    SameSegment(s, Segment(t.a, t.b)) || SameSegment(s, Segment(t.b, t.c)) || SameSegment(s, Segment(t.c, t.a))
  }

  predicate HasVertex(t: Triangle, p: Point) {
    p == t.a || p == t.b || p == t.c
  }

  predicate Distinct4(p: Point, q: Point, r: Point, s: Point) {
    p != q && p != r && p != s && q != r && q != s && r != s
  }

  /**
   * An edge of a triangle is contained in it exactly when both end points are
   * vertices, provided the segment is proper and the triangle has distinct vertices.
   */
  lemma ContainsSegmentByVertices(t: Triangle, s: Segment)
    requires s.a != s.b && t.a != t.b && t.b != t.c && t.c != t.a
    ensures ContainsSegment(t, s) <==> HasVertex(t, s.a) && HasVertex(t, s.b)
  {
  }

  function Sub(p: Point, q: Point): (d: Point) {
    Point(p.x - q.x, p.y - q.y)
  }

  function Dot(p: Point, q: Point): (s: real) {
    p.x * q.x + p.y * q.y
  }

  function Abs(r: real): (v: real)
    ensures v >= 0.0 && (v == r || v == -r)
  {
    if r < 0.0 then -r else r
  }

  /** The tolerance `1e-5` of the Voronoi orthogonality test. */
  const OrthogonalityTolerance: real := 0.00001

  /** `abs(dot(u, v)) < 1e-5`, evaluated exactly. */
  predicate NearlyOrthogonal(u: Point, v: Point) {
    Abs(Dot(u, v)) < OrthogonalityTolerance
  }

  /**
   * The verdicts of `Triangle.OnEdge(p)`, `Triangle.Includes(p, false)` and
   * `Triangle.circumscribedCenter`, which are computed outside this model.
   */
  datatype TriangleOracle = TriangleOracle(
    onEdge: (Triangle, Point) -> bool,
    strictlyInside: (Triangle, Point) -> bool,
    circumcenter: Triangle -> Point)
}
