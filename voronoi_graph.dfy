/**
 * `VoronoiGraph2D`, the dual of a finished triangulation: one cell per vertex of
 * the triangles, keyed by that vertex, and for each cell the segments between
 * circumcenters of adjacent triangles that pass the orthogonality test for that
 * vertex.
 *
 * The specification functions `Sites` and `CellSegments` say, for a given list of
 * triangle nodes, which keys the dictionary ends with and which segments each cell
 * ends with; the constructor of `VoronoiGraph2D` builds the dictionary with the
 * source's two nested loops and is proved to end with exactly that.
 */
module VoronoiGraph2D {
  import opened Geometry
  import opened NodeGraph2D

  /** One `VoronoiGraphNode2D`: the site it belongs to and its segments in insertion order. */
  datatype VNode = VNode(center: Point, segments: seq<Segment>)

  type Cells = map<Point, VNode>

  // ---------------------------------------------------------------------------
  // The orthogonality tests

  /**
   * The segment from circumcenter `c0` of `t0` to `c1` is attached to vertex `p` of
   * `t0` when it is nearly orthogonal to one of the two edges of `t0` that leave `p`.
   */
  predicate AttachesA(t0: Triangle, c0: Point, c1: Point) {
    NearlyOrthogonal(Sub(t0.b, t0.a), Sub(c1, c0)) || NearlyOrthogonal(Sub(t0.c, t0.a), Sub(c1, c0))
  }

  predicate AttachesB(t0: Triangle, c0: Point, c1: Point) {
    NearlyOrthogonal(Sub(t0.c, t0.b), Sub(c1, c0)) || NearlyOrthogonal(Sub(t0.a, t0.b), Sub(c1, c0))
  }

  predicate AttachesC(t0: Triangle, c0: Point, c1: Point) {
    NearlyOrthogonal(Sub(t0.a, t0.c), Sub(c1, c0)) || NearlyOrthogonal(Sub(t0.b, t0.c), Sub(c1, c0))
  }

  /** Whether the cell of `p` receives the segment `c0`–`c1` from triangle `t0`. */
  predicate Attaches(t0: Triangle, c0: Point, c1: Point, p: Point) {
    (p == t0.a && AttachesA(t0, c0, c1)) || (p == t0.b && AttachesB(t0, c0, c1)) || (p == t0.c && AttachesC(t0, c0, c1))
  }

  /**
   * What one (triangle, neighbor) pair appends to the cell of `p`: one copy of the
   * segment per vertex test that holds at a vertex equal to `p` (more than one only
   * when `t0` repeats a vertex).
   */
  function Contribution(t0: Triangle, c0: Point, c1: Point, p: Point): (r: seq<Segment>)
    ensures |r| <= 3
    ensures forall s | s in r :: s == Segment(c0, c1)
    ensures Segment(c0, c1) in r <==> Attaches(t0, c0, c1, p)
    ensures !HasVertex(t0, p) ==> r == []
  {
    (if p == t0.a && AttachesA(t0, c0, c1) then [Segment(c0, c1)] else []) +
    (if p == t0.b && AttachesB(t0, c0, c1) then [Segment(c0, c1)] else []) +
    (if p == t0.c && AttachesC(t0, c0, c1) then [Segment(c0, c1)] else [])
  }

  // ---------------------------------------------------------------------------
  // Specification functions

  /** The three vertices of a triangle. */
  function Vertices(t: Triangle): (vs: set<Point>) {
    {t.a, t.b, t.c}
  }

  /** The keys after the nodes `dns` have been visited: every vertex of their triangles. */
  function Sites(ns: Arena, dns: seq<NodeId>): (sites: set<Point>)
    requires InArena(dns, |ns|)
    decreases |dns|
  {
    if dns == [] then {}
    else Sites(ns, dns[..|dns| - 1]) + Vertices(ns[dns[|dns| - 1]].triangle)
  }

  /** What the neighbors `l` of a node with triangle `t0` append to the cell of `p`, in order. */
  function DualSegments(ns: Arena, geo: TriangleOracle, t0: Triangle, l: seq<NodeId>, p: Point): (segs: seq<Segment>)
    requires InArena(l, |ns|)
    decreases |l|
  {
    if l == [] then []
    else
      DualSegments(ns, geo, t0, l[..|l| - 1], p) +
      Contribution(t0, geo.circumcenter(t0), geo.circumcenter(ns[l[|l| - 1]].triangle), p)
  }

  /** The segments of the cell of `p` after the nodes `dns` have been visited, in order. */
  function CellSegments(ns: Arena, geo: TriangleOracle, dns: seq<NodeId>, p: Point): (segs: seq<Segment>)
    requires WellFormed(ns) && InArena(dns, |ns|)
    decreases |dns|
  {
    if dns == [] then []
    else
      var d := dns[|dns| - 1];
      CellSegments(ns, geo, dns[..|dns| - 1], p) + DualSegments(ns, geo, ns[d].triangle, ns[d].neighbor, p)
  }

  // ---------------------------------------------------------------------------
  // Dictionary updates

  /**
   * Registering the site `p` when it has no cell yet: the key set gains `p`, a new
   * cell starts empty and centered on its key, and existing cells are untouched.
   */
  function AddSite(m: Cells, p: Point): (r: Cells)
    ensures r.Keys == m.Keys + {p}
    ensures p !in m ==> r[p] == VNode(p, [])
    ensures forall q | q in m :: r[q] == m[q]
  {
    if p in m then m else m[p := VNode(p, [])]
  }

  /**
   * Looking up the cell of `p` and appending `s` to its segments: the cell of `p`, when
   * there is one, gains `s` at its end; no key is added or removed and no other cell changes.
   */
  function AttachSegment(m: Cells, p: Point, s: Segment): (r: Cells)
    ensures r.Keys == m.Keys
    ensures p in m ==> r[p] == m[p].(segments := m[p].segments + [s])
    ensures forall q | q in m && q != p :: r[q] == m[q]
  {
    if p in m then m[p := m[p].(segments := m[p].segments + [s])] else m
  }

  lemma AppendAssoc3<T>(a: seq<T>, b: seq<T>, c: seq<T>)
    ensures a + b + c == a + (b + c)
  {
  }

  /**
   * The body of the inner loop for one neighbor with circumcenter `c1`: each vertex of
   * `t0` whose test holds gets the segment `c0`–`c1`, so every cell gains exactly its
   * `Contribution` and the keys stay.
   */
  method AttachDual(m: Cells, t0: Triangle, c0: Point, c1: Point) returns (r: Cells)
    ensures r.Keys == m.Keys
    ensures forall p | p in m :: r[p] == m[p].(segments := m[p].segments + Contribution(t0, c0, c1, p))
  {
    hide AttachesA, AttachesB, AttachesC;
    var e := Segment(c0, c1);
    r := m;
    if AttachesA(t0, c0, c1) { r := AttachSegment(r, t0.a, e); }
    ghost var r1 := r;
    if AttachesB(t0, c0, c1) { r := AttachSegment(r, t0.b, e); }
    ghost var r2 := r;
    if AttachesC(t0, c0, c1) { r := AttachSegment(r, t0.c, e); }
    forall p | p in m
      ensures r[p] == m[p].(segments := m[p].segments + Contribution(t0, c0, c1, p))
    {
      var xa := if p == t0.a && AttachesA(t0, c0, c1) then [e] else [];
      var xb := if p == t0.b && AttachesB(t0, c0, c1) then [e] else [];
      var xc := if p == t0.c && AttachesC(t0, c0, c1) then [e] else [];
      assert r1[p] == m[p].(segments := m[p].segments + xa);
      assert r2[p] == m[p].(segments := m[p].segments + xa + xb);
      assert r[p] == m[p].(segments := m[p].segments + xa + xb + xc);
      assert Contribution(t0, c0, c1, p) == xa + xb + xc;
      AppendAssoc3(m[p].segments, xa, xb);
      AppendAssoc3(m[p].segments, xa + xb, xc);
    }
  }

  /**
   * `m` is the dictionary the constructor holds after visiting the nodes `done`: its
   * keys are their vertices and each cell is centered on its key and holds the
   * segments `CellSegments` lists for it.
   */
  predicate IsCells(m: Cells, ns: Arena, geo: TriangleOracle, done: seq<NodeId>)
    requires WellFormed(ns) && InArena(done, |ns|)
  {
    && m.Keys == Sites(ns, done)
    && forall p | p in m :: m[p] == VNode(p, CellSegments(ns, geo, done, p))
  }

  /**
   * One pass of the constructor's outer loop, for node `d`: its three vertices become
   * keys, then each of its neighbors, in order, attaches its segment to the vertices
   * whose test holds. The cells of `done` become the cells of `done + [d]`.
   */
  method VisitNode(m: Cells, ns: Arena, geo: TriangleOracle, done: seq<NodeId>, d: NodeId) returns (r: Cells)
    requires WellFormed(ns) && InArena(done, |ns|) && d < |ns|
    requires m.Keys == Sites(ns, done)
    requires forall p | p in m :: m[p] == VNode(p, CellSegments(ns, geo, done, p))
    ensures InArena(done + [d], |ns|)
    ensures r.Keys == Sites(ns, done + [d])
    ensures forall p | p in r :: r[p] == VNode(p, CellSegments(ns, geo, done + [d], p))
  {
    hide *;
    var t0 := ns[d].triangle;
    var c0 := geo.circumcenter(t0);
    r := AddSite(m, t0.a);
    r := AddSite(r, t0.b);
    r := AddSite(r, t0.c);
    SitesSnoc(ns, done, d);
    var l := ns[d].neighbor;
    NeighborsInArena(ns, d);
    DualSegmentsEmpty(ns, geo, t0, l);
    CellsStart(m, r, ns, geo, done, d);
    var h := 0;
    while h < |l|
      invariant 0 <= h <= |l|
      invariant InArena(l[..h], |ns|)
      invariant r.Keys == Sites(ns, done + [d])
      invariant forall p | p in r ::
        r[p] == VNode(p, CellSegments(ns, geo, done, p) + DualSegments(ns, geo, t0, l[..h], p))
    {
      ElementInArena(l, |ns|, h);
      var c1 := geo.circumcenter(ns[l[h]].triangle);
      ghost var before := r;
      r := AttachDual(r, t0, c0, c1);
      PrefixInArena(l, |ns|, h + 1);
      CellsStep(before, r, ns, geo, done, t0, l, h);
      h := h + 1;
    }
    assert l[..h] == l;
    forall p | p in r
      ensures r[p] == VNode(p, CellSegments(ns, geo, done + [d], p))
    {
      CellSegmentsSnoc(ns, geo, done, d, p);
    }
  }

  /** On entry to the inner loop every cell holds what the nodes `done` gave it, with `d`'s three vertices added as keys. */
  lemma CellsStart(m: Cells, r: Cells, ns: Arena, geo: TriangleOracle, done: seq<NodeId>, d: NodeId)
    requires WellFormed(ns) && InArena(done, |ns|) && d < |ns|
    requires m.Keys == Sites(ns, done)
    requires forall p | p in m :: m[p] == VNode(p, CellSegments(ns, geo, done, p))
    requires r == AddSite(AddSite(AddSite(m, ns[d].triangle.a), ns[d].triangle.b), ns[d].triangle.c)
    ensures forall p | p in r ::
      r[p] == VNode(p, CellSegments(ns, geo, done, p) + DualSegments(ns, geo, ns[d].triangle, ns[d].neighbor[..0], p))
  {
    hide *;
    NeighborsInArena(ns, d);
    DualSegmentsEmpty(ns, geo, ns[d].triangle, ns[d].neighbor);
    forall p | p in r
      ensures r[p] == VNode(p, CellSegments(ns, geo, done, p) + DualSegments(ns, geo, ns[d].triangle, ns[d].neighbor[..0], p))
    {
      if p !in m {
        CellSegmentsOffSite(ns, geo, done, p);
      }
    }
  }

  /** One turn of the inner loop: every cell gains the contribution of neighbor number `h`. */
  lemma CellsStep(before: Cells, r: Cells, ns: Arena, geo: TriangleOracle, done: seq<NodeId>, t0: Triangle, l: seq<NodeId>, h: nat)
    requires WellFormed(ns) && InArena(done, |ns|) && InArena(l, |ns|) && h < |l|
    requires InArena(l[..h], |ns|) && InArena(l[..h + 1], |ns|)
    requires forall p | p in before ::
      before[p] == VNode(p, CellSegments(ns, geo, done, p) + DualSegments(ns, geo, t0, l[..h], p))
    requires r.Keys == before.Keys
    requires forall p | p in before ::
      r[p] == before[p].(segments := before[p].segments + Contribution(t0, geo.circumcenter(t0), geo.circumcenter(ns[l[h]].triangle), p))
    ensures forall p | p in r ::
      r[p] == VNode(p, CellSegments(ns, geo, done, p) + DualSegments(ns, geo, t0, l[..h + 1], p))
  {
    forall p | p in r
      ensures r[p] == VNode(p, CellSegments(ns, geo, done, p) + DualSegments(ns, geo, t0, l[..h + 1], p))
    {
      var a, b := CellSegments(ns, geo, done, p), DualSegments(ns, geo, t0, l[..h], p);
      var c := Contribution(t0, geo.circumcenter(t0), geo.circumcenter(ns[l[h]].triangle), p);
      assert r[p] == VNode(p, a + b + c);
      DualSegmentsSnoc(ns, geo, t0, l, h, p);
      AppendAssoc3(a, b, c);
    }
  }

  // ---------------------------------------------------------------------------
  // The graph

  class VoronoiGraph2D {
    var nodes: Cells

    /**
     * Builds the cells of the nodes `dns`: a key for every vertex, each cell centered
     * on its key, holding exactly the segments `CellSegments` lists.
     */
    constructor (ns: Arena, dns: seq<NodeId>, geo: TriangleOracle)
      requires WellFormed(ns) && InArena(dns, |ns|)
      ensures IsCells(nodes, ns, geo, dns)
    {
      hide Sites, CellSegments, DualSegments, Contribution, WellFormed;
      var m: Cells := map[];
      var k := 0;
      assert dns[..0] == [];
      SitesNone(ns);
      while k < |dns|
        invariant 0 <= k <= |dns|
        invariant IsCells(m, ns, geo, dns[..k])
      {
        m := VisitNode(m, ns, geo, dns[..k], dns[k]);
        assert dns[..k + 1] == dns[..k] + [dns[k]];
        k := k + 1;
      }
      assert dns[..k] == dns;
      nodes := m;
    }
  }

  // ---------------------------------------------------------------------------
  // Unfolding steps used by the constructor

  lemma SitesNone(ns: Arena)
    ensures Sites(ns, []) == {}
  {
  }

  lemma SitesSnoc(ns: Arena, done: seq<NodeId>, d: NodeId)
    requires InArena(done, |ns|) && d < |ns|
    ensures InArena(done + [d], |ns|)
    ensures Sites(ns, done + [d]) == Sites(ns, done) + {ns[d].triangle.a, ns[d].triangle.b, ns[d].triangle.c}
  {
    assert (done + [d])[..|done|] == done;
  }

  lemma DualSegmentsEmpty(ns: Arena, geo: TriangleOracle, t0: Triangle, l: seq<NodeId>)
    requires InArena(l, |ns|)
    ensures InArena(l[..0], |ns|)
    ensures forall p :: DualSegments(ns, geo, t0, l[..0], p) == []
  {
    assert l[..0] == [];
  }

  lemma DualSegmentsSnoc(ns: Arena, geo: TriangleOracle, t0: Triangle, l: seq<NodeId>, h: nat, p: Point)
    requires InArena(l, |ns|) && h < |l|
    ensures DualSegments(ns, geo, t0, l[..h + 1], p) ==
      DualSegments(ns, geo, t0, l[..h], p) + Contribution(t0, geo.circumcenter(t0), geo.circumcenter(ns[l[h]].triangle), p)
  {
    assert l[..h + 1][..h] == l[..h];
  }

  lemma CellSegmentsSnoc(ns: Arena, geo: TriangleOracle, done: seq<NodeId>, d: NodeId, p: Point)
    requires WellFormed(ns) && InArena(done, |ns|) && d < |ns|
    ensures InArena(done + [d], |ns|)
    ensures CellSegments(ns, geo, done + [d], p) ==
      CellSegments(ns, geo, done, p) + DualSegments(ns, geo, ns[d].triangle, ns[d].neighbor, p)
  {
    assert (done + [d])[..|done|] == done;
  }

  // ---------------------------------------------------------------------------
  // Properties

  /** A point is a key exactly when it is a vertex of the triangle of one of the nodes. */
  lemma {:induction false} SitesAreVertices(ns: Arena, dns: seq<NodeId>, p: Point)
    requires InArena(dns, |ns|)
    ensures p in Sites(ns, dns) <==> exists k | 0 <= k < |dns| :: HasVertex(ns[dns[k]].triangle, p)
    decreases |dns|
  {
    if dns != [] {
      var init := dns[..|dns| - 1];
      SitesAreVertices(ns, init, p);
      if p in Sites(ns, init) {
        var k :| 0 <= k < |init| && HasVertex(ns[init[k]].triangle, p);
        assert dns[k] == init[k];
      } else if exists k | 0 <= k < |dns| :: HasVertex(ns[dns[k]].triangle, p) {
        var k :| 0 <= k < |dns| && HasVertex(ns[dns[k]].triangle, p);
        if k < |init| {
          assert init[k] == dns[k];
        }
      }
    }
  }

  /** A point that is a vertex of none of the triangles receives no segment. */
  lemma {:induction false} CellSegmentsOffSite(ns: Arena, geo: TriangleOracle, dns: seq<NodeId>, p: Point)
    requires WellFormed(ns) && InArena(dns, |ns|)
    requires p !in Sites(ns, dns)
    ensures CellSegments(ns, geo, dns, p) == []
    decreases |dns|
  {
    if dns != [] {
      var d := dns[|dns| - 1];
      CellSegmentsOffSite(ns, geo, dns[..|dns| - 1], p);
      DualSegmentsOffVertex(ns, geo, ns[d].triangle, ns[d].neighbor, p);
    }
  }

  /** A node whose triangle does not have `p` as a vertex appends nothing to the cell of `p`. */
  lemma {:induction false} DualSegmentsOffVertex(ns: Arena, geo: TriangleOracle, t0: Triangle, l: seq<NodeId>, p: Point)
    requires InArena(l, |ns|)
    requires !HasVertex(t0, p)
    ensures DualSegments(ns, geo, t0, l, p) == []
    decreases |l|
  {
    if l != [] {
      DualSegmentsOffVertex(ns, geo, t0, l[..|l| - 1], p);
    }
  }

  /**
   * The segments a node appends to the cell of `p` are exactly the segments from its
   * circumcenter to the circumcenter of one of its neighbors that pass the test for `p`.
   */
  lemma {:induction false} DualSegmentsSpec(ns: Arena, geo: TriangleOracle, t0: Triangle, l: seq<NodeId>, p: Point, s: Segment)
    requires InArena(l, |ns|)
    ensures s in DualSegments(ns, geo, t0, l, p) <==>
      exists h | 0 <= h < |l| ::
        var c1 := geo.circumcenter(ns[l[h]].triangle);
        s == Segment(geo.circumcenter(t0), c1) && Attaches(t0, geo.circumcenter(t0), c1, p)
    decreases |l|
  {
    hide Attaches, AttachesA, AttachesB, AttachesC, Contribution;
    if l != [] {
      var init := l[..|l| - 1];
      var c0 := geo.circumcenter(t0);
      DualSegmentsSpec(ns, geo, t0, init, p, s);
      if s in DualSegments(ns, geo, t0, l, p) {
        if s in DualSegments(ns, geo, t0, init, p) {
          var h :| 0 <= h < |init| && s == Segment(c0, geo.circumcenter(ns[init[h]].triangle))
            && Attaches(t0, c0, geo.circumcenter(ns[init[h]].triangle), p);
          assert l[h] == init[h];
        } else {
          assert Attaches(t0, c0, geo.circumcenter(ns[l[|l| - 1]].triangle), p);
        }
      }
    }
  }

  /**
   * Every segment of the cell of `p` joins the circumcenter of one of the visited
   * triangles, which has `p` as a vertex, to the circumcenter of one of that triangle's
   * neighbors, and passes the orthogonality test for `p`; and every such segment is there.
   */
  lemma {:induction false} CellSegmentsSpec(ns: Arena, geo: TriangleOracle, dns: seq<NodeId>, p: Point, s: Segment)
    requires WellFormed(ns) && InArena(dns, |ns|)
    ensures s in CellSegments(ns, geo, dns, p) <==>
      exists k, h | 0 <= k < |dns| && 0 <= h < |ns[dns[k]].neighbor| ::
        var t0 := ns[dns[k]].triangle;
        var c1 := geo.circumcenter(ns[ns[dns[k]].neighbor[h]].triangle);
        s == Segment(geo.circumcenter(t0), c1) && Attaches(t0, geo.circumcenter(t0), c1, p)
  {
    hide Attaches, AttachesA, AttachesB, AttachesC, Contribution, DualSegments, CellSegments;
    if s in CellSegments(ns, geo, dns, p) {
      var k, h := CellSegmentsWitness(ns, geo, dns, p, s);
    }
    if exists k, h | 0 <= k < |dns| && 0 <= h < |ns[dns[k]].neighbor| ::
        s == Segment(geo.circumcenter(ns[dns[k]].triangle), geo.circumcenter(ns[ns[dns[k]].neighbor[h]].triangle))
        && Attaches(ns[dns[k]].triangle, geo.circumcenter(ns[dns[k]].triangle), geo.circumcenter(ns[ns[dns[k]].neighbor[h]].triangle), p) {
      var k, h :| 0 <= k < |dns| && 0 <= h < |ns[dns[k]].neighbor| &&
        s == Segment(geo.circumcenter(ns[dns[k]].triangle), geo.circumcenter(ns[ns[dns[k]].neighbor[h]].triangle))
        && Attaches(ns[dns[k]].triangle, geo.circumcenter(ns[dns[k]].triangle), geo.circumcenter(ns[ns[dns[k]].neighbor[h]].triangle), p);
      CellSegmentsFrom(ns, geo, dns, p, s, k, h);
    }
  }

  /** A segment of the cell of `p` comes from some visited node `dns[k]` and its neighbor number `h`. */
  lemma {:induction false} CellSegmentsWitness(ns: Arena, geo: TriangleOracle, dns: seq<NodeId>, p: Point, s: Segment)
    returns (k: nat, h: nat)
    requires WellFormed(ns) && InArena(dns, |ns|) && s in CellSegments(ns, geo, dns, p)
    ensures k < |dns| && h < |ns[dns[k]].neighbor|
    ensures var t0 := ns[dns[k]].triangle;
      var c1 := geo.circumcenter(ns[ns[dns[k]].neighbor[h]].triangle);
      s == Segment(geo.circumcenter(t0), c1) && Attaches(t0, geo.circumcenter(t0), c1, p)
    decreases |dns|
  {
    hide Attaches, AttachesA, AttachesB, AttachesC, Contribution, DualSegments, CellSegments;
    if dns == [] {
      CellSegmentsNone(ns, geo, p);
      assert false;
    }
    var init := dns[..|dns| - 1];
    var d := dns[|dns| - 1];
    assert dns == init + [d];
    CellSegmentsSnoc(ns, geo, init, d, p);
    if s in CellSegments(ns, geo, init, p) {
      k, h := CellSegmentsWitness(ns, geo, init, p, s);
      assert dns[k] == init[k];
    } else {
      DualSegmentsSpec(ns, geo, ns[d].triangle, ns[d].neighbor, p, s);
      k := |dns| - 1;
      h :| 0 <= h < |ns[d].neighbor| &&
        s == Segment(geo.circumcenter(ns[d].triangle), geo.circumcenter(ns[ns[d].neighbor[h]].triangle))
        && Attaches(ns[d].triangle, geo.circumcenter(ns[d].triangle), geo.circumcenter(ns[ns[d].neighbor[h]].triangle), p);
    }
  }

  /** The segment from the visited node `dns[k]` to its neighbor number `h`, when it passes the test for `p`, is in the cell of `p`. */
  lemma {:induction false} CellSegmentsFrom(ns: Arena, geo: TriangleOracle, dns: seq<NodeId>, p: Point, s: Segment, k: nat, h: nat)
    requires WellFormed(ns) && InArena(dns, |ns|) && k < |dns| && h < |ns[dns[k]].neighbor|
    requires var t0 := ns[dns[k]].triangle;
      var c1 := geo.circumcenter(ns[ns[dns[k]].neighbor[h]].triangle);
      s == Segment(geo.circumcenter(t0), c1) && Attaches(t0, geo.circumcenter(t0), c1, p)
    ensures s in CellSegments(ns, geo, dns, p)
    decreases |dns|
  {
    hide Attaches, AttachesA, AttachesB, AttachesC, Contribution, DualSegments, CellSegments;
    var init := dns[..|dns| - 1];
    var d := dns[|dns| - 1];
    assert dns == init + [d];
    CellSegmentsSnoc(ns, geo, init, d, p);
    if k < |init| {
      assert init[k] == dns[k];
      CellSegmentsFrom(ns, geo, init, p, s, k, h);
    } else {
      DualSegmentsSpec(ns, geo, ns[d].triangle, ns[d].neighbor, p, s);
    }
  }

  lemma CellSegmentsNone(ns: Arena, geo: TriangleOracle, p: Point)
    requires WellFormed(ns)
    ensures CellSegments(ns, geo, [], p) == []
  {
  }

  /** Every segment of a cell starts at the circumcenter of a triangle that has the cell's site as a vertex. */
  lemma CellSegmentsIncident(ns: Arena, geo: TriangleOracle, dns: seq<NodeId>, p: Point, s: Segment)
    requires WellFormed(ns) && InArena(dns, |ns|)
    requires s in CellSegments(ns, geo, dns, p)
    ensures exists k | 0 <= k < |dns| :: HasVertex(ns[dns[k]].triangle, p) && s.a == geo.circumcenter(ns[dns[k]].triangle)
  {
    CellSegmentsSpec(ns, geo, dns, p, s);
    var k, h :| 0 <= k < |dns| && 0 <= h < |ns[dns[k]].neighbor| &&
      s == Segment(geo.circumcenter(ns[dns[k]].triangle), geo.circumcenter(ns[ns[dns[k]].neighbor[h]].triangle))
      && Attaches(ns[dns[k]].triangle, geo.circumcenter(ns[dns[k]].triangle), geo.circumcenter(ns[ns[dns[k]].neighbor[h]].triangle), p);
  }

  /**
   * What the constructor leaves: a key for exactly the vertices of the visited
   * triangles, one cell per distinct vertex, each centered on its key, and no cell
   * holding a segment for a point that is not one of those vertices.
   */
  lemma CellsOfVertices(m: Cells, ns: Arena, geo: TriangleOracle, dns: seq<NodeId>, p: Point)
    requires WellFormed(ns) && InArena(dns, |ns|) && IsCells(m, ns, geo, dns)
    ensures p in m <==> exists k | 0 <= k < |dns| :: HasVertex(ns[dns[k]].triangle, p)
    ensures p in m ==> m[p].center == p
    ensures p !in m ==> CellSegments(ns, geo, dns, p) == []
  {
    SitesAreVertices(ns, dns, p);
    if p !in m {
      CellSegmentsOffSite(ns, geo, dns, p);
    }
  }
}
