/**
 * What the operations of `DelaunayGraphNode2D` promise, stated over the arenas
 * that `NodeGraph2D` says they leave behind.
 */
module NodeGraph2DProperties {
  import opened Wrappers
  import opened Geometry
  import opened NodeGraph2D

  /** `r` is `ns` with more nodes after it, and the old nodes keep their triangles. */
  predicate Extends(ns: Arena, r: Arena) {
    |ns| <= |r| && forall j | 0 <= j < |ns| :: r[j].triangle == ns[j].triangle
  }

  // ---------------------------------------------------------------------------
  // Rewiring a neighbor list

  /** The rewiring of a list depends only on the triangles of the nodes. */
  lemma RewiredFrame(ns: Arena, r: Arena, l: seq<NodeId>, e: Segment, node: NodeId)
    requires InArena(l, |ns|) && node < |ns| && Extends(ns, r)
    ensures Rewired(r, l, e, node) == Rewired(ns, l, e, node)
  {
  }

  /** Rewiring twice with the same node is rewiring once, when that node has the edge. */
  lemma RewiredIdempotent(ns: Arena, l: seq<NodeId>, e: Segment, node: NodeId)
    requires InArena(l, |ns|) && node < |ns| && Contains(ns, node, e)
    ensures Rewired(ns, Rewired(ns, l, e, node), e, node) == Rewired(ns, l, e, node)
  {
  }

  /**
   * The `ForEach` of `SetNeighbors`: after it, each node listed in `l` that has edge
   * `e` has had its neighbor list rewired exactly once (repetitions in `l` do not
   * matter), provided `node` has edge `e`; every other neighbor list is as before.
   */
  lemma {:induction false} RewireEachEffect(ns: Arena, l: seq<NodeId>, e: Segment, node: NodeId)
    requires WellFormed(ns) && InArena(l, |ns|) && node < |ns|
    ensures var r := RewireEach(ns, l, e, node);
      forall j | 0 <= j < |ns| ::
        r[j].neighbor == if j in l && Contains(ns, j, e) && Contains(ns, node, e)
                         then Rewired(ns, ns[j].neighbor, e, node) else ns[j].neighbor
    decreases |l|
  {
    if l != [] {
      var l' := l[..|l| - 1];
      var n := l[|l| - 1];
      assert l == l' + [n];
      RewireEachEffect(ns, l', e, node);
      var prev := RewireEach(ns, l', e, node);
      var r := RewireEach(ns, l, e, node);
      forall j | 0 <= j < |ns|
        ensures r[j].neighbor == if j in l && Contains(ns, j, e) && Contains(ns, node, e)
                                 then Rewired(ns, ns[j].neighbor, e, node) else ns[j].neighbor
      {
        assert j in l <==> j in l' || j == n;
        if j == n && Contains(ns, n, e) && Contains(ns, node, e) {
          RewiredFrame(ns, prev, prev[n].neighbor, e, node);
          if n in l' {
            RewiredIdempotent(ns, ns[n].neighbor, e, node);
          }
        }
      }
    }
  }

  // ---------------------------------------------------------------------------
  // GetFacingNode

  /** The facing-node lookup reads only the node's own list and the triangles of the nodes. */
  lemma {:induction false} FirstContainingFrame(ns: Arena, r: Arena, l: seq<NodeId>, e: Segment)
    requires InArena(l, |ns|) && Extends(ns, r)
    ensures FirstContaining(r, l, e) == FirstContaining(ns, l, e)
    decreases |l|
  {
    if l != [] {
      FirstContainingFrame(ns, r, l[1..], e);
    }
  }

  lemma GetFacingNodeFrame(ns: Arena, r: Arena, i: NodeId, e: Segment)
    requires i < |ns| && InArena(ns[i].neighbor, |ns|) && Extends(ns, r) && r[i].neighbor == ns[i].neighbor
    ensures GetFacingNode(r, i, e) == GetFacingNode(ns, i, e)
  {
    FirstContainingFrame(ns, r, ns[i].neighbor, e);
  }

  // ---------------------------------------------------------------------------
  // SetNeighbors and SetNeighborWhenFlip

  /**
   * `SetNeighbors(tgt, p1, p2)` on `i`: with no node facing `i` across the edge nothing
   * changes; otherwise `tgt` appends the facing node, and each neighbor of `i` that has
   * the edge has its entries across the edge replaced by `tgt` (when `tgt` has the edge).
   * In particular the facing node's entries across the edge now all refer to `tgt`.
   */
  lemma SetNeighborsEffect(ns: Arena, i: NodeId, tgt: NodeId, p1: Point, p2: Point)
    requires WellFormed(ns) && i < |ns| && tgt < |ns| && i != tgt && tgt !in ns[i].neighbor
    ensures var e := Segment(p1, p2);
      var f := GetFacingNode(ns, i, e);
      var r := AfterSetNeighbors(ns, i, tgt, p1, p2);
      && (f == None ==> r == ns)
      && r[tgt].neighbor == ns[tgt].neighbor + f.ToSeq()
      && (forall j | 0 <= j < |ns| && j != tgt ::
            r[j].neighbor == if f.Some? && j in ns[i].neighbor && Contains(ns, j, e) && Contains(ns, tgt, e)
                             then Rewired(ns, ns[j].neighbor, e, tgt) else ns[j].neighbor)
      && (f.Some? && Contains(ns, tgt, e) ==>
            |r[f.value].neighbor| == |ns[f.value].neighbor| &&
            forall k | 0 <= k < |ns[f.value].neighbor| && Contains(ns, ns[f.value].neighbor[k], e) ::
              r[f.value].neighbor[k] == tgt)
  {
    var e := Segment(p1, p2);
    var f := GetFacingNode(ns, i, e);
    var r := AfterSetNeighbors(ns, i, tgt, p1, p2);
    GetFacingNodeSpec(ns, i, e);
    if f.Some? {
      var q := f.value;
      AdoptKeepsWellFormed(ns, tgt, q);
      var appended := ns[tgt := ns[tgt].(neighbor := ns[tgt].neighbor + [q])];
      var l := ns[i].neighbor;
      assert appended[i].neighbor == l;
      assert r == RewireEach(appended, l, e, tgt);
      RewireEachEffect(appended, l, e, tgt);
      assert Contains(appended, tgt, e) == Contains(ns, tgt, e);
      assert r[tgt].neighbor == appended[tgt].neighbor;
      forall j | 0 <= j < |ns| && j != tgt
        ensures r[j].neighbor == if j in l && Contains(ns, j, e) && Contains(ns, tgt, e)
                                 then Rewired(ns, ns[j].neighbor, e, tgt) else ns[j].neighbor
      {
        assert appended[j] == ns[j];
        RewiredFrame(ns, appended, ns[j].neighbor, e, tgt);
      }
    }
  }

  /**
   * `SetNeighborWhenFlip(e, retired)` on `x`: with no node facing `retired` across `e`
   * nothing changes; otherwise `x` appends the facing node `q`, and `q`'s entries across
   * `e` are replaced by `x` (when `x` has edge `e`). No other list changes, and only
   * `x`'s list grows, by one.
   */
  lemma SetNeighborWhenFlipEffect(ns: Arena, x: NodeId, e: Segment, retired: NodeId)
    requires WellFormed(ns) && x < |ns| && retired < |ns|
    ensures var f := GetFacingNode(ns, retired, e);
      var r := AfterSetNeighborWhenFlip(ns, x, e, retired);
      && (f == None ==> r == ns)
      && (forall j | 0 <= j < |ns| ::
            |r[j].neighbor| == |ns[j].neighbor| + (if j == x && f.Some? then 1 else 0))
      && (f.Some? ==>
            forall j | 0 <= j < |ns| ::
              var base := if j == x then ns[x].neighbor + [f.value] else ns[j].neighbor;
              r[j].neighbor == if j == f.value && Contains(ns, x, e) then Rewired(ns, base, e, x) else base)
      && (f.Some? && f.value != x && Contains(ns, x, e) ==>
            forall k | 0 <= k < |ns[f.value].neighbor| && Contains(ns, ns[f.value].neighbor[k], e) ::
              r[f.value].neighbor[k] == x)
  {
    var f := GetFacingNode(ns, retired, e);
    if f.Some? {
      AdoptKeepsWellFormed(ns, x, f.value);
      var appended := ns[x := ns[x].(neighbor := ns[x].neighbor + [f.value])];
      var base := appended[f.value].neighbor;
      RewiredFrame(ns, appended, base, e, x);
    }
  }

  /**
   * `SetNeighbors(tgt, p1, p2)` on `i` and `tgt.SetNeighborWhenFlip((p1, p2), i)` leave
   * the same arena when at most one neighbor of `i` lies across the edge. (When several
   * do, `SetNeighbors` rewires all of them and `SetNeighborWhenFlip` only the first.)
   */
  lemma SetNeighborsAgreesWithWhenFlip(ns: Arena, i: NodeId, tgt: NodeId, p1: Point, p2: Point)
    requires WellFormed(ns) && i < |ns| && tgt < |ns| && i != tgt && tgt !in ns[i].neighbor
    requires forall k, m | 0 <= k < |ns[i].neighbor| && 0 <= m < |ns[i].neighbor| ::
      Contains(ns, ns[i].neighbor[k], Segment(p1, p2)) && Contains(ns, ns[i].neighbor[m], Segment(p1, p2)) ==>
        ns[i].neighbor[k] == ns[i].neighbor[m]
    ensures AfterSetNeighbors(ns, i, tgt, p1, p2) == AfterSetNeighborWhenFlip(ns, tgt, Segment(p1, p2), i)
  {
    hide AfterSetNeighbors;
    hide AfterSetNeighborWhenFlip;
    var e := Segment(p1, p2);
    var f := GetFacingNode(ns, i, e);
    GetFacingNodeSpec(ns, i, e);
    var r1 := AfterSetNeighbors(ns, i, tgt, p1, p2);
    var r2 := AfterSetNeighborWhenFlip(ns, tgt, e, i);
    SetNeighborsEffect(ns, i, tgt, p1, p2);
    SetNeighborWhenFlipEffect(ns, tgt, e, i);
    if f.Some? {
      var q := f.value;
      var kq :| 0 <= kq < |ns[i].neighbor| && ns[i].neighbor[kq] == q;
      assert q != tgt;
      forall j | 0 <= j < |ns|
        ensures r1[j] == r2[j]
      {
        if j != tgt && j in ns[i].neighbor && Contains(ns, j, e) {
          var kj :| 0 <= kj < |ns[i].neighbor| && ns[i].neighbor[kj] == j;
          assert j == q;
        }
      }
    }
  }

  // ---------------------------------------------------------------------------
  // Split

  /**
   * One `SetNeighbors` step of a split, done on an arena `s` that extends the arena `ns`
   * the split started from, for a fresh child `tgt` and an edge `(p1, p2)` of the parent.
   */
  lemma SplitStep(ns: Arena, s: Arena, i: NodeId, tgt: NodeId, p1: Point, p2: Point)
    requires WellFormed(ns) && WellFormed(s) && Extends(ns, s)
    requires i < |ns| && s[i].neighbor == ns[i].neighbor && i !in ns[i].neighbor
    requires |ns| <= tgt < |s| && Contains(ns, i, Segment(p1, p2))
    ensures var e := Segment(p1, p2);
      var r := AfterSetNeighbors(s, i, tgt, p1, p2);
      && OnlyNeighborsChange(s, r) && WellFormed(r)
      && r[tgt].neighbor == s[tgt].neighbor + GetFacingNode(ns, i, e).ToSeq()
      && r[i].neighbor == ns[i].neighbor
      && (forall j | 0 <= j < |s| && j != tgt ::
            r[j].neighbor == if j in ns[i].neighbor && Contains(s, j, e) && Contains(s, tgt, e)
                             then Rewired(s, s[j].neighbor, e, tgt) else s[j].neighbor)
  {
    var e := Segment(p1, p2);
    GetFacingNodeFrame(ns, s, i, e);
    assert tgt !in s[i].neighbor;
    GetFacingNodeSpec(s, i, e);
    SetNeighborsEffect(s, i, tgt, p1, p2);
    SetNeighborsKeepsWellFormed(s, i, tgt, p1, p2);
  }

  /**
   * The arena `s` part way through a split of node `i` of `ns`: it extends `ns`,
   * stays well formed, and `i`, which does not list itself, keeps its neighbor list.
   */
  predicate SplitStage(ns: Arena, i: NodeId, s: Arena) {
    WellFormed(ns) && WellFormed(s) && Extends(ns, s) &&
    i < |ns| && s[i].neighbor == ns[i].neighbor && i !in ns[i].neighbor
  }

  lemma SplitBornStage(ns: Arena, i: NodeId, p: Point)
    requires WellFormed(ns) && i < |ns| && i !in ns[i].neighbor
    ensures var born := SplitBorn(ns, ns[i].triangle, p);
      && SplitStage(ns, i, born)
      && born[|ns|].neighbor == [|ns| + 1, |ns| + 2]
      && born[|ns| + 1].neighbor == [|ns| + 2, |ns|]
      && born[|ns| + 2].neighbor == [|ns|, |ns| + 1]
  {
    SplitBornKeepsWellFormed(ns, ns[i].triangle, p);
    assert SplitBorn(ns, ns[i].triangle, p)[i] == ns[i];
  }

  /**
   * One `SetNeighbors` step of a split seen from the children: the fresh child `tgt`
   * appends the node facing `i` across the edge, and the other children keep their lists.
   */
  lemma SplitStepChildren(ns: Arena, s: Arena, i: NodeId, tgt: NodeId, c1: NodeId, c2: NodeId, p1: Point, p2: Point)
    requires SplitStage(ns, i, s)
    requires |ns| <= tgt < |s| && |ns| <= c1 < |s| && |ns| <= c2 < |s| && c1 != tgt && c2 != tgt
    requires Contains(ns, i, Segment(p1, p2))
    ensures var r := AfterSetNeighbors(s, i, tgt, p1, p2);
      && |r| == |s| && SplitStage(ns, i, r) && r[i].neighbor == ns[i].neighbor
      && r[tgt].neighbor == s[tgt].neighbor + GetFacingNode(ns, i, Segment(p1, p2)).ToSeq()
      && r[c1].neighbor == s[c1].neighbor && r[c2].neighbor == s[c2].neighbor
  {
    SplitStep(ns, s, i, tgt, p1, p2);
  }

  /** The neighbor lists the three `SetNeighbors` steps of a split leave on `i` and on the children. */
  lemma SplitWiredNeighbors(ns: Arena, i: NodeId, p: Point)
    requires WellFormed(ns) && i < |ns| && i !in ns[i].neighbor
    ensures var t := ns[i].triangle;
      var n := |ns|;
      var w := SplitWired(ns, i, p);
      && w[i].neighbor == ns[i].neighbor
      && w[n].neighbor == [n + 1, n + 2] + GetFacingNode(ns, i, Segment(t.a, t.b)).ToSeq()
      && w[n + 1].neighbor == [n + 2, n] + GetFacingNode(ns, i, Segment(t.b, t.c)).ToSeq()
      && w[n + 2].neighbor == [n, n + 1] + GetFacingNode(ns, i, Segment(t.c, t.a)).ToSeq()
  {
    hide AfterSetNeighbors, SplitStage, SplitBorn, WellFormed, Extends, OnlyNeighborsChange, GetFacingNode;
    var t := ns[i].triangle;
    var n := |ns|;
    var born := SplitBorn(ns, t, p);
    SplitBornStage(ns, i, p);
    var s1 := AfterSetNeighbors(born, i, n, t.a, t.b);
    SplitStepChildren(ns, born, i, n, n + 1, n + 2, t.a, t.b);
    var s2 := AfterSetNeighbors(s1, i, n + 1, t.b, t.c);
    SplitStepChildren(ns, s1, i, n + 1, n, n + 2, t.b, t.c);
    var s3 := AfterSetNeighbors(s2, i, n + 2, t.c, t.a);
    SplitStepChildren(ns, s2, i, n + 2, n, n + 1, t.c, t.a);
  }

  /**
   * One `SetNeighbors` step of a split seen from a neighbor `m` of the parent: when `m`
   * has the edge, its entries across the edge are rewired to the child `tgt`.
   */
  lemma SplitStepOuter(ns: Arena, s: Arena, i: NodeId, tgt: NodeId, p1: Point, p2: Point, m: NodeId)
    requires SplitStage(ns, i, s)
    requires |ns| <= tgt < |s| && Contains(ns, i, Segment(p1, p2)) && Contains(s, tgt, Segment(p1, p2))
    requires m < |ns| && m in ns[i].neighbor
    ensures var r := AfterSetNeighbors(s, i, tgt, p1, p2);
      && |r| == |s| && SplitStage(ns, i, r)
      && (forall c | 0 <= c < |s| :: r[c].triangle == s[c].triangle)
      && r[m].neighbor == if Contains(ns, m, Segment(p1, p2)) then Rewired(s, s[m].neighbor, Segment(p1, p2), tgt) else s[m].neighbor
  {
    SplitStep(ns, s, i, tgt, p1, p2);
  }

  /**
   * A successful `Split(p)`: `i` gets exactly the three children `(a, b, p)`, `(b, c, p)`
   * and `(c, a, p)`, appended to the arena; each child's neighbor list starts with its
   * two siblings and ends with the node that faced
   * `i` across the child's outer edge, if there is one; `i` keeps its triangle and list.
   */
  lemma SplitChildren(ns: Arena, i: NodeId, p: Point, geo: TriangleOracle)
    requires WellFormed(ns) && i < |ns| && i !in ns[i].neighbor
    requires !geo.onEdge(ns[i].triangle, p) && geo.strictlyInside(ns[i].triangle, p)
    ensures var t := ns[i].triangle;
      var n := |ns|;
      var r := AfterSplit(ns, i, p, geo);
      && |r| == n + 3
      && r[i] == ns[i].(children := [n, n + 1, n + 2])
      && r[n] == DNode(Triangle(t.a, t.b, p), [], [n + 1, n + 2] + GetFacingNode(ns, i, Segment(t.a, t.b)).ToSeq())
      && r[n + 1] == DNode(Triangle(t.b, t.c, p), [], [n + 2, n] + GetFacingNode(ns, i, Segment(t.b, t.c)).ToSeq())
      && r[n + 2] == DNode(Triangle(t.c, t.a, p), [], [n, n + 1] + GetFacingNode(ns, i, Segment(t.c, t.a)).ToSeq())
  {
    hide AfterSetNeighbors, GetFacingNode, WellFormed;
    SplitWiredNeighbors(ns, i, p);
    var t := ns[i].triangle;
    var n := |ns|;
    var born := SplitBorn(ns, t, p);
    assert born[i] == ns[i];
    assert born[n] == DNode(Triangle(t.a, t.b, p), [], [n + 1, n + 2]);
    assert born[n + 1] == DNode(Triangle(t.b, t.c, p), [], [n + 2, n]);
    assert born[n + 2] == DNode(Triangle(t.c, t.a, p), [], [n, n + 1]);
  }

  /** After a successful `Split(p)` every child lists both of its siblings, so sibling adjacency is symmetric. */
  lemma SplitSiblings(ns: Arena, i: NodeId, p: Point, geo: TriangleOracle)
    requires WellFormed(ns) && i < |ns| && i !in ns[i].neighbor
    requires !geo.onEdge(ns[i].triangle, p) && geo.strictlyInside(ns[i].triangle, p)
    ensures var n := |ns|;
      var r := AfterSplit(ns, i, p, geo);
      && |r| == n + 3
      && forall c, d | n <= c < n + 3 && n <= d < n + 3 && c != d :: d in r[c].neighbor
  {
    hide *;
    SplitChildren(ns, i, p, geo);
    var n := |ns|;
    var r := AfterSplit(ns, i, p, geo);
    assert r[n].neighbor[..2] == [n + 1, n + 2];
    assert r[n + 1].neighbor[..2] == [n + 2, n];
    assert r[n + 2].neighbor[..2] == [n, n + 1];
    forall c, d | n <= c < n + 3 && n <= d < n + 3 && c != d
      ensures d in r[c].neighbor
    {
      assert d in r[c].neighbor[..2];
    }
  }

  /** One `SetNeighbors` step of a split seen from one entry `k` of the list of an outside neighbor `m`. */
  lemma SplitStepEntry(ns: Arena, s: Arena, i: NodeId, tgt: NodeId, p1: Point, p2: Point, m: NodeId, k: nat)
    requires SplitStage(ns, i, s)
    requires |ns| <= tgt < |s| && Contains(ns, i, Segment(p1, p2)) && Contains(s, tgt, Segment(p1, p2))
    requires m < |ns| && m in ns[i].neighbor && k < |s[m].neighbor|
    ensures var r := AfterSetNeighbors(s, i, tgt, p1, p2);
      && |r| == |s| && SplitStage(ns, i, r)
      && (forall c | 0 <= c < |s| :: r[c].triangle == s[c].triangle)
      && |r[m].neighbor| == |s[m].neighbor|
      && r[m].neighbor[k] == if Contains(ns, m, Segment(p1, p2)) && Contains(s, s[m].neighbor[k], Segment(p1, p2))
                             then tgt else s[m].neighbor[k]
  {
    SplitStepOuter(ns, s, i, tgt, p1, p2, m);
  }

  /** Part way through a split, the nodes of the original arena still contain the edges they contained. */
  lemma SplitStageContains(ns: Arena, i: NodeId, s: Arena, v: NodeId, e: Segment)
    requires SplitStage(ns, i, s) && v < |ns|
    ensures Contains(s, v, e) == Contains(ns, v, e)
  {
  }

  /**
   * After a successful `Split(p)`, every entry of the list of an outside neighbor `m` of
   * `i` that shares an edge of `i`'s triangle with `m` is replaced by the child across
   * that edge (the first of `ab`, `bc`, `ca` they share); every other entry stays. In
   * particular the entries that referred to `i` now refer to the child across the edge
   * `m` shares with `i`. The list keeps its length.
   */
  lemma SplitRewiresOuter(ns: Arena, i: NodeId, p: Point, geo: TriangleOracle, h: nat)
    requires WellFormed(ns) && i < |ns| && i !in ns[i].neighbor
    requires !geo.onEdge(ns[i].triangle, p) && geo.strictlyInside(ns[i].triangle, p)
    requires Distinct4(ns[i].triangle.a, ns[i].triangle.b, ns[i].triangle.c, p)
    requires h < |ns[i].neighbor|
    ensures var t := ns[i].triangle;
      var n := |ns|;
      var m := ns[i].neighbor[h];
      var ab, bc, ca := Segment(t.a, t.b), Segment(t.b, t.c), Segment(t.c, t.a);
      var r := AfterSplit(ns, i, p, geo);
      && |r[m].neighbor| == |ns[m].neighbor|
      && forall k | 0 <= k < |ns[m].neighbor| ::
           r[m].neighbor[k] == if Contains(ns, m, ab) && Contains(ns, ns[m].neighbor[k], ab) then n
                               else if Contains(ns, m, bc) && Contains(ns, ns[m].neighbor[k], bc) then n + 1
                               else if Contains(ns, m, ca) && Contains(ns, ns[m].neighbor[k], ca) then n + 2
                               else ns[m].neighbor[k]
  {
    hide AfterSetNeighbors, WellFormed, Extends, OnlyNeighborsChange, GetFacingNode, SplitStage;
    var t := ns[i].triangle;
    var n := |ns|;
    var m := ns[i].neighbor[h];
    var ab, bc, ca := Segment(t.a, t.b), Segment(t.b, t.c), Segment(t.c, t.a);
    var born := SplitBorn(ns, t, p);
    SplitBornStage(ns, i, p);
    NeighborsInArena(ns, i);
    ElementInArena(ns[i].neighbor, |ns|, h);
    NeighborsInArena(ns, m);
    assert born[m] == ns[m] && born[i] == ns[i];
    var s1 := AfterSetNeighbors(born, i, n, t.a, t.b);
    SplitStepOuter(ns, born, i, n, t.a, t.b, m);
    var s2 := AfterSetNeighbors(s1, i, n + 1, t.b, t.c);
    SplitStepOuter(ns, s1, i, n + 1, t.b, t.c, m);
    var s3 := AfterSetNeighbors(s2, i, n + 2, t.c, t.a);
    SplitStepOuter(ns, s2, i, n + 2, t.c, t.a, m);
    assert !Contains(s1, n, bc) && !Contains(s2, n, ca) && !Contains(s2, n + 1, ca);
    forall k | 0 <= k < |ns[m].neighbor|
      ensures s3[m].neighbor[k] == if Contains(ns, m, ab) && Contains(ns, ns[m].neighbor[k], ab) then n
                                   else if Contains(ns, m, bc) && Contains(ns, ns[m].neighbor[k], bc) then n + 1
                                   else if Contains(ns, m, ca) && Contains(ns, ns[m].neighbor[k], ca) then n + 2
                                   else ns[m].neighbor[k]
    {
      var o := ns[m].neighbor[k];
      ElementInArena(ns[m].neighbor, n, k);
      SplitStepEntry(ns, born, i, n, t.a, t.b, m, k);
      SplitStepEntry(ns, s1, i, n + 1, t.b, t.c, m, k);
      SplitStepEntry(ns, s2, i, n + 2, t.c, t.a, m, k);
      SplitStageContains(ns, i, born, o, ab);
      SplitStageContains(ns, i, s1, o, bc);
      SplitStageContains(ns, i, s2, o, ca);
    }
  }

  /**
   * After a successful `Split(p)`, a node that `Split(p)` leaves untouched, one other than
   * `i` and not listed by `i`, is exactly as it was.
   */
  lemma SplitFrame(ns: Arena, i: NodeId, p: Point, geo: TriangleOracle, j: NodeId)
    requires WellFormed(ns) && i < |ns| && i !in ns[i].neighbor
    requires !geo.onEdge(ns[i].triangle, p) && geo.strictlyInside(ns[i].triangle, p)
    requires j < |ns| && j != i && j !in ns[i].neighbor
    ensures AfterSplit(ns, i, p, geo)[j] == ns[j]
  {
    hide AfterSetNeighbors, WellFormed, Extends, OnlyNeighborsChange, GetFacingNode, SplitStage;
    var t := ns[i].triangle;
    var n := |ns|;
    var born := SplitBorn(ns, t, p);
    SplitBornStage(ns, i, p);
    assert born[j] == ns[j];
    var s1 := AfterSetNeighbors(born, i, n, t.a, t.b);
    SplitStepFrame(ns, born, i, n, t.a, t.b, j);
    var s2 := AfterSetNeighbors(s1, i, n + 1, t.b, t.c);
    SplitStepFrame(ns, s1, i, n + 1, t.b, t.c, j);
    var s3 := AfterSetNeighbors(s2, i, n + 2, t.c, t.a);
    SplitStepFrame(ns, s2, i, n + 2, t.c, t.a, j);
  }

  /** One `SetNeighbors` step of a split leaves a node that `i` does not list as it was. */
  lemma SplitStepFrame(ns: Arena, s: Arena, i: NodeId, tgt: NodeId, p1: Point, p2: Point, j: NodeId)
    requires SplitStage(ns, i, s)
    requires |ns| <= tgt < |s| && Contains(ns, i, Segment(p1, p2))
    requires j < |ns| && j != i && j !in ns[i].neighbor
    ensures var r := AfterSetNeighbors(s, i, tgt, p1, p2);
      && |r| == |s| && SplitStage(ns, i, r) && r[j] == s[j]
  {
    SplitStep(ns, s, i, tgt, p1, p2);
  }

  /**
   * After a successful `Split(p)`, adjacency across each outer edge `e` of `i`'s triangle
   * is symmetric: when the node `q` facing `i` across `e` lists `i` back, the child `c`
   * across `e` lists `q` and `q` lists `c`. (For the edges `bc` and `ca`, `q` must not
   * also have the earlier edges of `i`'s triangle, which would make it the same
   * triangle as `i`.)
   */
  lemma SplitSymmetric(ns: Arena, i: NodeId, p: Point, geo: TriangleOracle, e: Segment, c: NodeId)
    requires WellFormed(ns) && i < |ns| && i !in ns[i].neighbor
    requires !geo.onEdge(ns[i].triangle, p) && geo.strictlyInside(ns[i].triangle, p)
    requires Distinct4(ns[i].triangle.a, ns[i].triangle.b, ns[i].triangle.c, p)
    requires var t := ns[i].triangle;
      || (e == Segment(t.a, t.b) && c == |ns|)
      || (e == Segment(t.b, t.c) && c == |ns| + 1)
      || (e == Segment(t.c, t.a) && c == |ns| + 2)
    ensures var t := ns[i].triangle;
      var f := GetFacingNode(ns, i, e);
      var r := AfterSplit(ns, i, p, geo);
      f.Some? && i in ns[f.value].neighbor
      && (c > |ns| ==> !Contains(ns, f.value, Segment(t.a, t.b)))
      && (c > |ns| + 1 ==> !Contains(ns, f.value, Segment(t.b, t.c))) ==>
        |r| == |ns| + 3 && f.value in r[c].neighbor && c in r[f.value].neighbor
  {
    hide AfterSplit, SplitWired, SplitBorn, AfterSetNeighbors, GetFacingNode, WellFormed;
    var t := ns[i].triangle;
    var f := GetFacingNode(ns, i, e);
    var r := AfterSplit(ns, i, p, geo);
    FacingInArena(ns, i, e);
    if f.Some? && i in ns[f.value].neighbor
      && (c > |ns| ==> !Contains(ns, f.value, Segment(t.a, t.b)))
      && (c > |ns| + 1 ==> !Contains(ns, f.value, Segment(t.b, t.c)))
    {
      GetFacingNodeSpec(ns, i, e);
      SplitChildren(ns, i, p, geo);
      var q := f.value;
      var h :| 0 <= h < |ns[i].neighbor| && ns[i].neighbor[h] == q;
      SplitRewiresOuter(ns, i, p, geo, h);
      var k :| 0 <= k < |ns[q].neighbor| && ns[q].neighbor[k] == i;
      assert r[q].neighbor[k] == c;
      assert r[c].neighbor[2] == q;
    }
  }


  // ---------------------------------------------------------------------------
  // Flip

  /**
   * `Flip` appends `na = (pointThis, pointPair, prvEdge.a)` and
   * `nb = (pointThis, pointPair, prvEdge.b)`, both without children, and both `i` and
   * `pair` end with `children == [na, nb]`; no other node changes triangle or children.
   */
  lemma FlipShape(ns: Arena, i: NodeId, pair: NodeId, prvEdge: Segment, pointThis: Point, pointPair: Point)
    requires WellFormed(ns) && i < |ns| && pair < |ns|
    ensures var n := |ns|;
      var r := AfterFlip(ns, i, pair, prvEdge, pointThis, pointPair);
      && |r| == n + 2
      && r[n].triangle == Triangle(pointThis, pointPair, prvEdge.a) && r[n].children == []
      && r[n + 1].triangle == Triangle(pointThis, pointPair, prvEdge.b) && r[n + 1].children == []
      && r[i].children == [n, n + 1] && r[pair].children == [n, n + 1]
      && (forall j | 0 <= j < n :: r[j].triangle == ns[j].triangle)
      && (forall j | 0 <= j < n && j != i && j != pair :: r[j].children == ns[j].children)
  {
    hide AfterSetNeighborWhenFlip, GetFacingNode, WellFormed;
    var n := |ns|;
    var born := FlipBorn(ns, prvEdge, pointThis, pointPair);
    assert forall j | 0 <= j < n :: born[j] == ns[j];
  }

  /**
   * One `SetNeighborWhenFlip` step on `x`, seen from node `c`: its triangle stays, its
   * list grows by at most one entry and only when `c` is `x`, and its first entry stays
   * when that entry is `x` itself or does not have the edge.
   */
  lemma FlipStep(s: Arena, x: NodeId, e: Segment, retired: NodeId, c: NodeId)
    requires WellFormed(s) && x < |s| && retired < |s| && c < |s|
    ensures var r := AfterSetNeighborWhenFlip(s, x, e, retired);
      && WellFormed(r) && |r| == |s| && r[c].triangle == s[c].triangle
      && |s[c].neighbor| <= |r[c].neighbor| <= |s[c].neighbor| + (if c == x then 1 else 0)
      && (|s[c].neighbor| >= 1 && (s[c].neighbor[0] == x || !Contains(s, s[c].neighbor[0], e)) ==>
            r[c].neighbor[0] == s[c].neighbor[0])
  {
    SetNeighborWhenFlipKeepsWellFormed(s, x, e, retired);
    SetNeighborWhenFlipEffect(s, x, e, retired);
    if |s[c].neighbor| >= 1 && (s[c].neighbor[0] == x || !Contains(s, s[c].neighbor[0], e)) {
      WhenFlipKeepsHead(s, x, e, retired, c, s[c].neighbor[0]);
    }
  }

  /**
   * After `Flip`, each new node has between one and three neighbors: its sibling plus
   * at most one facing node per outer edge.
   */
  lemma FlipNeighborBound(ns: Arena, i: NodeId, pair: NodeId, prvEdge: Segment, pointThis: Point, pointPair: Point)
    requires WellFormed(ns) && i < |ns| && pair < |ns|
    ensures var n := |ns|;
      var r := AfterFlip(ns, i, pair, prvEdge, pointThis, pointPair);
      && 1 <= |r[n].neighbor| <= 3
      && 1 <= |r[n + 1].neighbor| <= 3
  {
    hide AfterSetNeighborWhenFlip, WellFormed, GetFacingNode, OnlyNeighborsChange;
    var n := |ns|;
    var born := FlipBorn(ns, prvEdge, pointThis, pointPair);
    FlipBornKeepsWellFormed(ns, prvEdge, pointThis, pointPair);
    var s1 := AfterSetNeighborWhenFlip(born, n, Segment(prvEdge.a, pointThis), i);
    FlipStep(born, n, Segment(prvEdge.a, pointThis), i, n);
    FlipStep(born, n, Segment(prvEdge.a, pointThis), i, n + 1);
    var s2 := AfterSetNeighborWhenFlip(s1, n, Segment(prvEdge.a, pointPair), pair);
    FlipStep(s1, n, Segment(prvEdge.a, pointPair), pair, n);
    FlipStep(s1, n, Segment(prvEdge.a, pointPair), pair, n + 1);
    var s3 := AfterSetNeighborWhenFlip(s2, n + 1, Segment(prvEdge.b, pointThis), i);
    FlipStep(s2, n + 1, Segment(prvEdge.b, pointThis), i, n);
    FlipStep(s2, n + 1, Segment(prvEdge.b, pointThis), i, n + 1);
    FlipStep(s3, n + 1, Segment(prvEdge.b, pointPair), pair, n);
    FlipStep(s3, n + 1, Segment(prvEdge.b, pointPair), pair, n + 1);
  }

  /**
   * One `SetNeighborWhenFlip` step keeps the first entry `h` of node `j`'s list, when
   * the adopting node is `h` itself or `h` does not have the edge.
   */
  lemma WhenFlipKeepsHead(ns: Arena, x: NodeId, e: Segment, retired: NodeId, j: NodeId, h: NodeId)
    requires WellFormed(ns) && x < |ns| && retired < |ns| && j < |ns| && h < |ns|
    requires |ns[j].neighbor| >= 1 && ns[j].neighbor[0] == h
    requires x == h || !Contains(ns, h, e)
    ensures var r := AfterSetNeighborWhenFlip(ns, x, e, retired);
      |r[j].neighbor| >= 1 && r[j].neighbor[0] == h
  {
    SetNeighborWhenFlipEffect(ns, x, e, retired);
  }

  /**
   * After `Flip` of a proper quadrilateral (the two ends of `prvEdge`, `pointThis` and
   * `pointPair` pairwise distinct), the two new nodes are each other's first neighbor.
   */
  lemma FlipSiblingsFirst(ns: Arena, i: NodeId, pair: NodeId, prvEdge: Segment, pointThis: Point, pointPair: Point)
    requires WellFormed(ns) && i < |ns| && pair < |ns|
    requires Distinct4(prvEdge.a, prvEdge.b, pointThis, pointPair)
    ensures var n := |ns|;
      var r := AfterFlip(ns, i, pair, prvEdge, pointThis, pointPair);
      [n + 1] <= r[n].neighbor && [n] <= r[n + 1].neighbor
  {
    hide AfterSetNeighborWhenFlip, WellFormed, GetFacingNode, OnlyNeighborsChange;
    var n := |ns|;
    var (ea, eb) := (prvEdge.a, prvEdge.b);
    var born := FlipBorn(ns, prvEdge, pointThis, pointPair);
    FlipBornKeepsWellFormed(ns, prvEdge, pointThis, pointPair);
    assert !ContainsSegment(Triangle(pointThis, pointPair, eb), Segment(ea, pointThis));
    assert !ContainsSegment(Triangle(pointThis, pointPair, eb), Segment(ea, pointPair));
    assert !ContainsSegment(Triangle(pointThis, pointPair, ea), Segment(eb, pointThis));
    assert !ContainsSegment(Triangle(pointThis, pointPair, ea), Segment(eb, pointPair));
    var s1 := AfterSetNeighborWhenFlip(born, n, Segment(ea, pointThis), i);
    FlipStep(born, n, Segment(ea, pointThis), i, n);
    FlipStep(born, n, Segment(ea, pointThis), i, n + 1);
    var s2 := AfterSetNeighborWhenFlip(s1, n, Segment(ea, pointPair), pair);
    FlipStep(s1, n, Segment(ea, pointPair), pair, n);
    FlipStep(s1, n, Segment(ea, pointPair), pair, n + 1);
    var s3 := AfterSetNeighborWhenFlip(s2, n + 1, Segment(eb, pointThis), i);
    FlipStep(s2, n + 1, Segment(eb, pointThis), i, n);
    FlipStep(s2, n + 1, Segment(eb, pointThis), i, n + 1);
    FlipStep(s3, n + 1, Segment(eb, pointPair), pair, n);
    FlipStep(s3, n + 1, Segment(eb, pointPair), pair, n + 1);
  }

  /**
   * The arena `s` part way through a flip of `i` and `pair` in `ns`: the two new nodes
   * sit after `ns` with their triangles, the old nodes keep theirs, the arena stays well
   * formed, and `i` and `pair` keep their neighbor lists.
   */
  predicate FlipStage(ns: Arena, i: NodeId, pair: NodeId, prvEdge: Segment, pointThis: Point, pointPair: Point, s: Arena) {
    WellFormed(ns) && WellFormed(s) && i < |ns| && pair < |ns| && |s| == |ns| + 2 && Extends(ns, s)
    && s[|ns|].triangle == Triangle(pointThis, pointPair, prvEdge.a)
    && s[|ns| + 1].triangle == Triangle(pointThis, pointPair, prvEdge.b)
    && s[i].neighbor == ns[i].neighbor && s[pair].neighbor == ns[pair].neighbor
  }

  lemma FlipBornStage(ns: Arena, i: NodeId, pair: NodeId, prvEdge: Segment, pointThis: Point, pointPair: Point)
    requires WellFormed(ns) && i < |ns| && pair < |ns|
    ensures var born := FlipBorn(ns, prvEdge, pointThis, pointPair);
      && FlipStage(ns, i, pair, prvEdge, pointThis, pointPair, born)
      && born[|ns|].neighbor == [|ns| + 1] && born[|ns| + 1].neighbor == [|ns|]
      && forall q | 0 <= q < |ns| :: born[q] == ns[q]
  {
    FlipBornKeepsWellFormed(ns, prvEdge, pointThis, pointPair);
    var born := FlipBorn(ns, prvEdge, pointThis, pointPair);
    assert forall q | 0 <= q < |ns| :: born[q] == ns[q];
  }

  /** Part way through a flip, every node contains the edges its triangle has. */
  lemma FlipStageContains(ns: Arena, i: NodeId, pair: NodeId, prvEdge: Segment, pointThis: Point, pointPair: Point, s: Arena, v: NodeId, e: Segment)
    requires FlipStage(ns, i, pair, prvEdge, pointThis, pointPair, s)
    ensures v < |ns| ==> Contains(s, v, e) == Contains(ns, v, e)
    ensures Contains(s, |ns|, e) == ContainsSegment(Triangle(pointThis, pointPair, prvEdge.a), e)
    ensures Contains(s, |ns| + 1, e) == ContainsSegment(Triangle(pointThis, pointPair, prvEdge.b), e)
  {
  }

  /**
   * One `SetNeighborWhenFlip(e, retired)` step of a flip on the new node `x`, where neither
   * `i` nor `pair` is a neighbor of `retired` across `e`: the node facing `retired` is the
   * one it faced in `ns`, `x` appends it, and the other new node, `i` and `pair` keep
   * their lists.
   */
  lemma FlipStageStep(ns: Arena, i: NodeId, pair: NodeId, prvEdge: Segment, pointThis: Point, pointPair: Point,
                      s: Arena, x: NodeId, e: Segment, retired: NodeId)
    requires FlipStage(ns, i, pair, prvEdge, pointThis, pointPair, s)
    requires x == |ns| || x == |ns| + 1
    requires retired == i || retired == pair
    requires !Contains(ns, i, e) || i !in ns[retired].neighbor
    requires !Contains(ns, pair, e) || pair !in ns[retired].neighbor
    ensures var f := GetFacingNode(ns, retired, e);
      var r := AfterSetNeighborWhenFlip(s, x, e, retired);
      && FlipStage(ns, i, pair, prvEdge, pointThis, pointPair, r)
      && GetFacingNode(s, retired, e) == f
      && r[x].neighbor == s[x].neighbor + f.ToSeq()
      && r[2 * |ns| + 1 - x].neighbor == s[2 * |ns| + 1 - x].neighbor
  {
    NeighborsInArena(ns, retired);
    GetFacingNodeFrame(ns, s, retired, e);
    GetFacingNodeSpec(ns, retired, e);
    SetNeighborWhenFlipEffect(s, x, e, retired);
    SetNeighborWhenFlipKeepsWellFormed(s, x, e, retired);
  }

  /** One `SetNeighborWhenFlip` step of a flip seen from entry `k` of the list of an old node `q`. */
  lemma FlipStageEntry(ns: Arena, i: NodeId, pair: NodeId, prvEdge: Segment, pointThis: Point, pointPair: Point,
                       s: Arena, x: NodeId, e: Segment, retired: NodeId, q: NodeId, k: nat)
    requires FlipStage(ns, i, pair, prvEdge, pointThis, pointPair, s)
    requires x == |ns| || x == |ns| + 1
    requires retired == i || retired == pair
    requires !Contains(ns, i, e) || i !in ns[retired].neighbor
    requires !Contains(ns, pair, e) || pair !in ns[retired].neighbor
    requires q < |ns| && k < |s[q].neighbor|
    ensures var r := AfterSetNeighborWhenFlip(s, x, e, retired);
      && FlipStage(ns, i, pair, prvEdge, pointThis, pointPair, r)
      && |r[q].neighbor| == |s[q].neighbor|
      && r[q].neighbor[k] == if GetFacingNode(ns, retired, e) == Some(q) && Contains(s, x, e) && Contains(s, s[q].neighbor[k], e)
                             then x else s[q].neighbor[k]
  {
    FlipStageStep(ns, i, pair, prvEdge, pointThis, pointPair, s, x, e, retired);
    SetNeighborWhenFlipEffect(s, x, e, retired);
  }

  /**
   * After `Flip`, with `i` and `pair` not listing themselves, `pair` not having the edges
   * `(prvEdge.a, pointThis)`, `(prvEdge.b, pointThis)` and `i` not having the edges
   * `(prvEdge.a, pointPair)`, `(prvEdge.b, pointPair)`: the new node `na` lists `nb`, then
   * the node facing `i` across `(prvEdge.a, pointThis)`, then the node facing `pair`
   * across `(prvEdge.a, pointPair)`, each if there is one; `nb` likewise with `prvEdge.b`.
   */
  lemma FlipWiredNeighbors(ns: Arena, i: NodeId, pair: NodeId, prvEdge: Segment, pointThis: Point, pointPair: Point)
    requires WellFormed(ns) && i < |ns| && pair < |ns|
    requires i !in ns[i].neighbor && pair !in ns[pair].neighbor
    requires !Contains(ns, pair, Segment(prvEdge.a, pointThis)) && !Contains(ns, pair, Segment(prvEdge.b, pointThis))
    requires !Contains(ns, i, Segment(prvEdge.a, pointPair)) && !Contains(ns, i, Segment(prvEdge.b, pointPair))
    ensures var n := |ns|;
      var r := AfterFlip(ns, i, pair, prvEdge, pointThis, pointPair);
      && r[n].neighbor == [n + 1] + GetFacingNode(ns, i, Segment(prvEdge.a, pointThis)).ToSeq()
                                  + GetFacingNode(ns, pair, Segment(prvEdge.a, pointPair)).ToSeq()
      && r[n + 1].neighbor == [n] + GetFacingNode(ns, i, Segment(prvEdge.b, pointThis)).ToSeq()
                                  + GetFacingNode(ns, pair, Segment(prvEdge.b, pointPair)).ToSeq()
  {
    hide AfterSetNeighborWhenFlip, WellFormed, GetFacingNode, OnlyNeighborsChange, FlipStage;
    var n := |ns|;
    var (ea, eb) := (prvEdge.a, prvEdge.b);
    var born := FlipBorn(ns, prvEdge, pointThis, pointPair);
    FlipBornStage(ns, i, pair, prvEdge, pointThis, pointPair);
    var s1 := AfterSetNeighborWhenFlip(born, n, Segment(ea, pointThis), i);
    FlipStageStep(ns, i, pair, prvEdge, pointThis, pointPair, born, n, Segment(ea, pointThis), i);
    var s2 := AfterSetNeighborWhenFlip(s1, n, Segment(ea, pointPair), pair);
    FlipStageStep(ns, i, pair, prvEdge, pointThis, pointPair, s1, n, Segment(ea, pointPair), pair);
    var s3 := AfterSetNeighborWhenFlip(s2, n + 1, Segment(eb, pointThis), i);
    FlipStageStep(ns, i, pair, prvEdge, pointThis, pointPair, s2, n + 1, Segment(eb, pointThis), i);
    FlipStageStep(ns, i, pair, prvEdge, pointThis, pointPair, s3, n + 1, Segment(eb, pointPair), pair);
  }

  /** `FlipRewiresOuter` for one entry `k` of the list of an old node `q`. */
  lemma FlipEntry(ns: Arena, i: NodeId, pair: NodeId, prvEdge: Segment, pointThis: Point, pointPair: Point, q: NodeId, k: nat)
    requires WellFormed(ns) && i < |ns| && pair < |ns|
    requires i !in ns[i].neighbor && pair !in ns[pair].neighbor
    requires !Contains(ns, pair, Segment(prvEdge.a, pointThis)) && !Contains(ns, pair, Segment(prvEdge.b, pointThis))
    requires !Contains(ns, i, Segment(prvEdge.a, pointPair)) && !Contains(ns, i, Segment(prvEdge.b, pointPair))
    requires Distinct4(prvEdge.a, prvEdge.b, pointThis, pointPair)
    requires q < |ns| && k < |ns[q].neighbor|
    ensures var n := |ns|;
      var r := AfterFlip(ns, i, pair, prvEdge, pointThis, pointPair);
      var o := ns[q].neighbor[k];
      var e1, e2 := Segment(prvEdge.a, pointThis), Segment(prvEdge.a, pointPair);
      var e3, e4 := Segment(prvEdge.b, pointThis), Segment(prvEdge.b, pointPair);
      && |r[q].neighbor| == |ns[q].neighbor|
      && (!Contains(ns, o, e1) && !Contains(ns, o, e2) && !Contains(ns, o, e3) && !Contains(ns, o, e4) ==>
            r[q].neighbor[k] == o)
      && (GetFacingNode(ns, i, e1) == Some(q) && o == i ==> r[q].neighbor[k] == n)
      && (GetFacingNode(ns, pair, e2) == Some(q) && o == pair ==> r[q].neighbor[k] == n)
      && (GetFacingNode(ns, i, e3) == Some(q) && GetFacingNode(ns, i, e1) != Some(q) && o == i ==>
            r[q].neighbor[k] == n + 1)
      && (GetFacingNode(ns, pair, e4) == Some(q) && GetFacingNode(ns, pair, e2) != Some(q) && o == pair ==>
            r[q].neighbor[k] == n + 1)
  {
    hide AfterSetNeighborWhenFlip, WellFormed, GetFacingNode, OnlyNeighborsChange, FlipStage;
    var n := |ns|;
    var (ea, eb) := (prvEdge.a, prvEdge.b);
    var e1, e2 := Segment(ea, pointThis), Segment(ea, pointPair);
    var e3, e4 := Segment(eb, pointThis), Segment(eb, pointPair);
    var ta, tb := Triangle(pointThis, pointPair, ea), Triangle(pointThis, pointPair, eb);
    assert ContainsSegment(ta, e1) && ContainsSegment(ta, e2) && !ContainsSegment(ta, e3) && !ContainsSegment(ta, e4);
    assert ContainsSegment(tb, e3) && ContainsSegment(tb, e4);
    NeighborsInArena(ns, q);
    ElementInArena(ns[q].neighbor, |ns|, k);
    var born := FlipBorn(ns, prvEdge, pointThis, pointPair);
    FlipBornStage(ns, i, pair, prvEdge, pointThis, pointPair);
    assert born[q] == ns[q];
    var s1 := AfterSetNeighborWhenFlip(born, n, e1, i);
    FlipStageEntry(ns, i, pair, prvEdge, pointThis, pointPair, born, n, e1, i, q, k);
    FlipStageContains(ns, i, pair, prvEdge, pointThis, pointPair, born, ns[q].neighbor[k], e1);
    var s2 := AfterSetNeighborWhenFlip(s1, n, e2, pair);
    FlipStageEntry(ns, i, pair, prvEdge, pointThis, pointPair, s1, n, e2, pair, q, k);
    FlipStageContains(ns, i, pair, prvEdge, pointThis, pointPair, s1, ns[q].neighbor[k], e2);
    var s3 := AfterSetNeighborWhenFlip(s2, n + 1, e3, i);
    FlipStageEntry(ns, i, pair, prvEdge, pointThis, pointPair, s2, n + 1, e3, i, q, k);
    FlipStageContains(ns, i, pair, prvEdge, pointThis, pointPair, s2, ns[q].neighbor[k], e3);
    FlipStageEntry(ns, i, pair, prvEdge, pointThis, pointPair, s3, n + 1, e4, pair, q, k);
    FlipStageContains(ns, i, pair, prvEdge, pointThis, pointPair, s3, ns[q].neighbor[k], e4);
    var s4 := AfterSetNeighborWhenFlip(s3, n + 1, e4, pair);
    FlipKeepsWiredLists(ns, i, pair, prvEdge, pointThis, pointPair, q);
    hide AfterFlip, FlipWired;
    var o := ns[q].neighbor[k];
    var f1, f2, f3, f4 := GetFacingNode(ns, i, e1), GetFacingNode(ns, pair, e2), GetFacingNode(ns, i, e3), GetFacingNode(ns, pair, e4);
    if !Contains(ns, o, e1) && !Contains(ns, o, e2) && !Contains(ns, o, e3) && !Contains(ns, o, e4) {
      assert s1[q].neighbor[k] == o && s2[q].neighbor[k] == o && s3[q].neighbor[k] == o;
    }
    if f1 == Some(q) && o == i {
      assert s1[q].neighbor[k] == n && s2[q].neighbor[k] == n && s3[q].neighbor[k] == n;
    }
    if f2 == Some(q) && o == pair {
      assert s1[q].neighbor[k] == pair && s2[q].neighbor[k] == n && s3[q].neighbor[k] == n;
    }
    if f3 == Some(q) && f1 != Some(q) && o == i {
      assert s1[q].neighbor[k] == i && s2[q].neighbor[k] == i && s3[q].neighbor[k] == n + 1;
    }
    if f4 == Some(q) && f2 != Some(q) && o == pair {
      assert s1[q].neighbor[k] == pair && s2[q].neighbor[k] == pair && s3[q].neighbor[k] == pair;
    }
  }

  /** The children `Flip` gives `i` and `pair` leave every neighbor list as the four wiring steps left it. */
  lemma FlipKeepsWiredLists(ns: Arena, i: NodeId, pair: NodeId, prvEdge: Segment, pointThis: Point, pointPair: Point, q: NodeId)
    requires i < |ns| && pair < |ns| && q < |ns| + 2
    ensures AfterFlip(ns, i, pair, prvEdge, pointThis, pointPair)[q].neighbor ==
            FlipWired(ns, i, pair, prvEdge, pointThis, pointPair)[q].neighbor
  {
  }

  /**
   * After `Flip` of a proper quadrilateral, under the hypotheses of `FlipWiredNeighbors`,
   * every old node keeps the length of its list and its entries that share none of the
   * four outer edges; the node facing `i` across `(prvEdge.a, pointThis)` now lists `na`
   * where it listed `i`, and the node facing `pair` across `(prvEdge.a, pointPair)` lists
   * `na` where it listed `pair`; the nodes facing them across the `prvEdge.b` edges list
   * `nb` in the same way, unless they already faced the same node across the `prvEdge.a`
   * edge (which makes them the same triangle).
   */
  lemma FlipRewiresOuter(ns: Arena, i: NodeId, pair: NodeId, prvEdge: Segment, pointThis: Point, pointPair: Point)
    requires WellFormed(ns) && i < |ns| && pair < |ns|
    requires i !in ns[i].neighbor && pair !in ns[pair].neighbor
    requires !Contains(ns, pair, Segment(prvEdge.a, pointThis)) && !Contains(ns, pair, Segment(prvEdge.b, pointThis))
    requires !Contains(ns, i, Segment(prvEdge.a, pointPair)) && !Contains(ns, i, Segment(prvEdge.b, pointPair))
    requires Distinct4(prvEdge.a, prvEdge.b, pointThis, pointPair)
    ensures var n := |ns|;
      var r := AfterFlip(ns, i, pair, prvEdge, pointThis, pointPair);
      var e1, e2 := Segment(prvEdge.a, pointThis), Segment(prvEdge.a, pointPair);
      var e3, e4 := Segment(prvEdge.b, pointThis), Segment(prvEdge.b, pointPair);
      var f1, f2, f3, f4 := GetFacingNode(ns, i, e1), GetFacingNode(ns, pair, e2), GetFacingNode(ns, i, e3), GetFacingNode(ns, pair, e4);
      && (forall q | 0 <= q < n :: |r[q].neighbor| == |ns[q].neighbor|)
      && (forall q, k | 0 <= q < n && 0 <= k < |ns[q].neighbor| ::
            !Contains(ns, ns[q].neighbor[k], e1) && !Contains(ns, ns[q].neighbor[k], e2) &&
            !Contains(ns, ns[q].neighbor[k], e3) && !Contains(ns, ns[q].neighbor[k], e4) ==>
              r[q].neighbor[k] == ns[q].neighbor[k])
      && (f1.Some? ==> forall k | 0 <= k < |ns[f1.value].neighbor| && ns[f1.value].neighbor[k] == i ::
            r[f1.value].neighbor[k] == n)
      && (f2.Some? ==> forall k | 0 <= k < |ns[f2.value].neighbor| && ns[f2.value].neighbor[k] == pair ::
            r[f2.value].neighbor[k] == n)
      && (f3.Some? && f3 != f1 ==> forall k | 0 <= k < |ns[f3.value].neighbor| && ns[f3.value].neighbor[k] == i ::
            r[f3.value].neighbor[k] == n + 1)
      && (f4.Some? && f4 != f2 ==> forall k | 0 <= k < |ns[f4.value].neighbor| && ns[f4.value].neighbor[k] == pair ::
            r[f4.value].neighbor[k] == n + 1)
  {
    hide *;
    var n := |ns|;
    var r := AfterFlip(ns, i, pair, prvEdge, pointThis, pointPair);
    forall q | 0 <= q < n
      ensures |r[q].neighbor| == |ns[q].neighbor|
    {
      FlipLength(ns, i, pair, prvEdge, pointThis, pointPair, q);
    }
    forall q, k | 0 <= q < n && 0 <= k < |ns[q].neighbor|
      ensures var e1, e2 := Segment(prvEdge.a, pointThis), Segment(prvEdge.a, pointPair);
        var e3, e4 := Segment(prvEdge.b, pointThis), Segment(prvEdge.b, pointPair);
        var f1, f2, f3, f4 := GetFacingNode(ns, i, e1), GetFacingNode(ns, pair, e2), GetFacingNode(ns, i, e3), GetFacingNode(ns, pair, e4);
        var o := ns[q].neighbor[k];
        && (!Contains(ns, o, e1) && !Contains(ns, o, e2) && !Contains(ns, o, e3) && !Contains(ns, o, e4) ==>
              r[q].neighbor[k] == o)
        && (f1 == Some(q) && o == i ==> r[q].neighbor[k] == n)
        && (f2 == Some(q) && o == pair ==> r[q].neighbor[k] == n)
        && (f3 == Some(q) && f1 != Some(q) && o == i ==> r[q].neighbor[k] == n + 1)
        && (f4 == Some(q) && f2 != Some(q) && o == pair ==> r[q].neighbor[k] == n + 1)
    {
      FlipEntry(ns, i, pair, prvEdge, pointThis, pointPair, q, k);
    }
    FacingInArena(ns, i, Segment(prvEdge.a, pointThis));
    FacingInArena(ns, pair, Segment(prvEdge.a, pointPair));
    FacingInArena(ns, i, Segment(prvEdge.b, pointThis));
    FacingInArena(ns, pair, Segment(prvEdge.b, pointPair));
  }

  /**
   * After `Flip`, under the hypotheses of `FlipRewiresOuter`, adjacency across each of the
   * four outer edges `(end, pt)` is symmetric: `retired` is `i` with `pt == pointThis` or
   * `pair` with `pt == pointPair`, and `c` is the new node on that edge (`na` for
   * `prvEdge.a`, `nb` for `prvEdge.b`). When the node `q` facing `retired` across the edge
   * lists `retired` back, `c` lists `q` and `q` lists `c`. (For the `prvEdge.b` edges, `q`
   * must not also face `retired` across the `prvEdge.a` edge, which would make it the same
   * triangle as `retired`.)
   */
  lemma FlipSymmetric(ns: Arena, i: NodeId, pair: NodeId, prvEdge: Segment, pointThis: Point, pointPair: Point,
                      retired: NodeId, end: Point, pt: Point, c: NodeId)
    requires WellFormed(ns) && i < |ns| && pair < |ns|
    requires i !in ns[i].neighbor && pair !in ns[pair].neighbor
    requires !Contains(ns, pair, Segment(prvEdge.a, pointThis)) && !Contains(ns, pair, Segment(prvEdge.b, pointThis))
    requires !Contains(ns, i, Segment(prvEdge.a, pointPair)) && !Contains(ns, i, Segment(prvEdge.b, pointPair))
    requires Distinct4(prvEdge.a, prvEdge.b, pointThis, pointPair)
    requires (retired == i && pt == pointThis) || (retired == pair && pt == pointPair)
    requires (end == prvEdge.a && c == |ns|) || (end == prvEdge.b && c == |ns| + 1)
    ensures var f := GetFacingNode(ns, retired, Segment(end, pt));
      var r := AfterFlip(ns, i, pair, prvEdge, pointThis, pointPair);
      f.Some? && retired in ns[f.value].neighbor
      && (c == |ns| + 1 ==> f != GetFacingNode(ns, retired, Segment(prvEdge.a, pt))) ==>
        f.value in r[c].neighbor && c in r[f.value].neighbor
  {
    hide AfterFlip, FlipWired, AfterSetNeighborWhenFlip, WellFormed;
    var f := GetFacingNode(ns, retired, Segment(end, pt));
    var r := AfterFlip(ns, i, pair, prvEdge, pointThis, pointPair);
    FacingInArena(ns, retired, Segment(end, pt));
    if f.Some? && retired in ns[f.value].neighbor
      && (c == |ns| + 1 ==> f != GetFacingNode(ns, retired, Segment(prvEdge.a, pt)))
    {
      var q := f.value;
      FlipWiredNeighbors(ns, i, pair, prvEdge, pointThis, pointPair);
      FlipRewiresOuter(ns, i, pair, prvEdge, pointThis, pointPair);
      var k :| 0 <= k < |ns[q].neighbor| && ns[q].neighbor[k] == retired;
      assert r[q].neighbor[k] == c;
    }
  }

  /** A flip keeps the length of every old node's list. */
  lemma FlipLength(ns: Arena, i: NodeId, pair: NodeId, prvEdge: Segment, pointThis: Point, pointPair: Point, q: NodeId)
    requires WellFormed(ns) && i < |ns| && pair < |ns| && q < |ns|
    ensures |AfterFlip(ns, i, pair, prvEdge, pointThis, pointPair)[q].neighbor| == |ns[q].neighbor|
  {
    hide AfterSetNeighborWhenFlip, WellFormed, GetFacingNode, OnlyNeighborsChange;
    var n := |ns|;
    var (ea, eb) := (prvEdge.a, prvEdge.b);
    var born := FlipBorn(ns, prvEdge, pointThis, pointPair);
    FlipBornKeepsWellFormed(ns, prvEdge, pointThis, pointPair);
    assert born[q] == ns[q];
    var s1 := AfterSetNeighborWhenFlip(born, n, Segment(ea, pointThis), i);
    FlipStep(born, n, Segment(ea, pointThis), i, q);
    var s2 := AfterSetNeighborWhenFlip(s1, n, Segment(ea, pointPair), pair);
    FlipStep(s1, n, Segment(ea, pointPair), pair, q);
    var s3 := AfterSetNeighborWhenFlip(s2, n + 1, Segment(eb, pointThis), i);
    FlipStep(s2, n + 1, Segment(eb, pointThis), i, q);
    FlipStep(s3, n + 1, Segment(eb, pointPair), pair, q);
  }

  /** The node facing `i` across `e`, when there is one, is a node of the arena. */
  lemma FacingInArena(ns: Arena, i: NodeId, e: Segment)
    requires WellFormed(ns) && i < |ns|
    ensures GetFacingNode(ns, i, e).Some? ==> GetFacingNode(ns, i, e).value < |ns|
  {
    GetFacingNodeSpec(ns, i, e);
    NeighborsInArena(ns, i);
  }

  /**
   * One `SetNeighborWhenFlip(e, retired)` step of a flip seen from an old node `q` that
   * does not face `retired` across `e`: `q` keeps its list.
   */
  lemma FlipStageFrame(ns: Arena, i: NodeId, pair: NodeId, prvEdge: Segment, pointThis: Point, pointPair: Point,
                       s: Arena, x: NodeId, e: Segment, retired: NodeId, q: NodeId)
    requires FlipStage(ns, i, pair, prvEdge, pointThis, pointPair, s)
    requires x == |ns| || x == |ns| + 1
    requires retired == i || retired == pair
    requires !Contains(ns, i, e) || i !in ns[retired].neighbor
    requires !Contains(ns, pair, e) || pair !in ns[retired].neighbor
    requires q < |ns| && GetFacingNode(ns, retired, e) != Some(q)
    ensures var r := AfterSetNeighborWhenFlip(s, x, e, retired);
      FlipStage(ns, i, pair, prvEdge, pointThis, pointPair, r) && r[q].neighbor == s[q].neighbor
  {
    FlipStageStep(ns, i, pair, prvEdge, pointThis, pointPair, s, x, e, retired);
    SetNeighborWhenFlipEffect(s, x, e, retired);
  }

  /**
   * Under the hypotheses of `FlipWiredNeighbors`, `Flip` leaves the list of every old
   * node that faces neither `i` across `(prvEdge.a, pointThis)` or `(prvEdge.b, pointThis)`
   * nor `pair` across `(prvEdge.a, pointPair)` or `(prvEdge.b, pointPair)` as it was.
   */
  lemma FlipFrame(ns: Arena, i: NodeId, pair: NodeId, prvEdge: Segment, pointThis: Point, pointPair: Point, q: NodeId)
    requires WellFormed(ns) && i < |ns| && pair < |ns|
    requires i !in ns[i].neighbor && pair !in ns[pair].neighbor
    requires !Contains(ns, pair, Segment(prvEdge.a, pointThis)) && !Contains(ns, pair, Segment(prvEdge.b, pointThis))
    requires !Contains(ns, i, Segment(prvEdge.a, pointPair)) && !Contains(ns, i, Segment(prvEdge.b, pointPair))
    requires q < |ns|
    requires GetFacingNode(ns, i, Segment(prvEdge.a, pointThis)) != Some(q)
    requires GetFacingNode(ns, pair, Segment(prvEdge.a, pointPair)) != Some(q)
    requires GetFacingNode(ns, i, Segment(prvEdge.b, pointThis)) != Some(q)
    requires GetFacingNode(ns, pair, Segment(prvEdge.b, pointPair)) != Some(q)
    ensures AfterFlip(ns, i, pair, prvEdge, pointThis, pointPair)[q].neighbor == ns[q].neighbor
  {
    hide AfterSetNeighborWhenFlip, WellFormed, GetFacingNode, OnlyNeighborsChange, FlipStage;
    var n := |ns|;
    var (ea, eb) := (prvEdge.a, prvEdge.b);
    var born := FlipBorn(ns, prvEdge, pointThis, pointPair);
    FlipBornStage(ns, i, pair, prvEdge, pointThis, pointPair);
    var s1 := AfterSetNeighborWhenFlip(born, n, Segment(ea, pointThis), i);
    FlipStageFrame(ns, i, pair, prvEdge, pointThis, pointPair, born, n, Segment(ea, pointThis), i, q);
    var s2 := AfterSetNeighborWhenFlip(s1, n, Segment(ea, pointPair), pair);
    FlipStageFrame(ns, i, pair, prvEdge, pointThis, pointPair, s1, n, Segment(ea, pointPair), pair, q);
    var s3 := AfterSetNeighborWhenFlip(s2, n + 1, Segment(eb, pointThis), i);
    FlipStageFrame(ns, i, pair, prvEdge, pointThis, pointPair, s2, n + 1, Segment(eb, pointThis), i, q);
    FlipStageFrame(ns, i, pair, prvEdge, pointThis, pointPair, s3, n + 1, Segment(eb, pointPair), pair, q);
    FlipKeepsWiredLists(ns, i, pair, prvEdge, pointThis, pointPair, q);
  }

  /** Under the hypotheses of `FlipWiredNeighbors`, the two retired nodes `i` and `pair` keep their lists. */
  lemma FlipRetiredKeepLists(ns: Arena, i: NodeId, pair: NodeId, prvEdge: Segment, pointThis: Point, pointPair: Point)
    requires WellFormed(ns) && i < |ns| && pair < |ns|
    requires i !in ns[i].neighbor && pair !in ns[pair].neighbor
    requires !Contains(ns, pair, Segment(prvEdge.a, pointThis)) && !Contains(ns, pair, Segment(prvEdge.b, pointThis))
    requires !Contains(ns, i, Segment(prvEdge.a, pointPair)) && !Contains(ns, i, Segment(prvEdge.b, pointPair))
    ensures var r := AfterFlip(ns, i, pair, prvEdge, pointThis, pointPair);
      r[i].neighbor == ns[i].neighbor && r[pair].neighbor == ns[pair].neighbor
  {
    GetFacingNodeSpec(ns, i, Segment(prvEdge.a, pointThis));
    GetFacingNodeSpec(ns, i, Segment(prvEdge.b, pointThis));
    GetFacingNodeSpec(ns, pair, Segment(prvEdge.a, pointPair));
    GetFacingNodeSpec(ns, pair, Segment(prvEdge.b, pointPair));
    FlipFrame(ns, i, pair, prvEdge, pointThis, pointPair, i);
    FlipFrame(ns, i, pair, prvEdge, pointThis, pointPair, pair);
  }

  // ---------------------------------------------------------------------------
  // No node lists itself

  /** No node of `ns` is its own neighbor. */
  predicate NoSelfListing(ns: Arena) {
    forall j, k | 0 <= j < |ns| && 0 <= k < |ns[j].neighbor| :: ns[j].neighbor[k] != j
  }

  /** Rewiring a list without `j` towards a node other than `j` gives a list without `j`. */
  lemma RewiredAvoids(ns: Arena, l: seq<NodeId>, e: Segment, node: NodeId, j: NodeId)
    requires (forall k | 0 <= k < |l| :: l[k] != j) && node != j
    ensures forall k | 0 <= k < |l| :: Rewired(ns, l, e, node)[k] != j
  {
  }

  lemma SetFacingNodeKeepsNoSelfListing(ns: Arena, j: NodeId, e: Segment, node: NodeId)
    requires NoSelfListing(ns) && node != j
    ensures NoSelfListing(AfterSetFacingNode(ns, j, e, node))
  {
    if j < |ns| {
      RewiredAvoids(ns, ns[j].neighbor, e, node, j);
    }
  }

  lemma {:induction false} RewireEachKeepsNoSelfListing(ns: Arena, l: seq<NodeId>, e: Segment, node: NodeId)
    requires NoSelfListing(ns) && node !in l
    ensures NoSelfListing(RewireEach(ns, l, e, node))
    decreases |l|
  {
    if l != [] {
      var l' := l[..|l| - 1];
      assert l == l' + [l[|l| - 1]];
      RewireEachKeepsNoSelfListing(ns, l', e, node);
      SetFacingNodeKeepsNoSelfListing(RewireEach(ns, l', e, node), l[|l| - 1], e, node);
    }
  }

  /** `SetNeighbors(tgt, p1, p2)` on `i`, when `i` does not list `tgt`, makes no node list itself. */
  lemma SetNeighborsKeepsNoSelfListing(ns: Arena, i: NodeId, tgt: NodeId, p1: Point, p2: Point)
    requires i < |ns| && tgt < |ns| && tgt !in ns[i].neighbor && NoSelfListing(ns)
    ensures NoSelfListing(AfterSetNeighbors(ns, i, tgt, p1, p2))
  {
    var e := Segment(p1, p2);
    GetFacingNodeSpec(ns, i, e);
    var f := GetFacingNode(ns, i, e);
    if f.Some? {
      var appended := Adopt(ns, tgt, f.value);
      assert NoSelfListing(appended);
      assert tgt !in appended[i].neighbor;
      RewireEachKeepsNoSelfListing(appended, appended[i].neighbor, e, tgt);
    }
  }

  /** `SetNeighborWhenFlip(e, retired)` on `x`, when `x` does not face `retired`, makes no node list itself. */
  lemma SetNeighborWhenFlipKeepsNoSelfListing(ns: Arena, x: NodeId, e: Segment, retired: NodeId)
    requires x < |ns| && NoSelfListing(ns) && GetFacingNode(ns, retired, e) != Some(x)
    ensures NoSelfListing(AfterSetNeighborWhenFlip(ns, x, e, retired))
  {
    var f := GetFacingNode(ns, retired, e);
    if f.Some? {
      var appended := Adopt(ns, x, f.value);
      assert NoSelfListing(appended);
      SetFacingNodeKeepsNoSelfListing(appended, f.value, e, x);
    }
  }

  /** One `SetNeighbors` step of a split makes no node list itself when none did before. */
  lemma SplitStageKeepsNoSelfListing(ns: Arena, s: Arena, i: NodeId, tgt: NodeId, p1: Point, p2: Point)
    requires SplitStage(ns, i, s) && NoSelfListing(s)
    requires |ns| <= tgt < |s| && Contains(ns, i, Segment(p1, p2))
    ensures var r := AfterSetNeighbors(s, i, tgt, p1, p2);
      |r| == |s| && SplitStage(ns, i, r) && NoSelfListing(r)
  {
    SplitStep(ns, s, i, tgt, p1, p2);
    NeighborsInArena(ns, i);
    assert tgt !in s[i].neighbor;
    SetNeighborsKeepsNoSelfListing(s, i, tgt, p1, p2);
  }

  /** `Split(p)` makes no node its own neighbor when none was before. */
  lemma SplitKeepsNoSelfListing(ns: Arena, i: NodeId, p: Point, geo: TriangleOracle)
    requires WellFormed(ns) && i < |ns| && NoSelfListing(ns)
    ensures NoSelfListing(AfterSplit(ns, i, p, geo))
  {
    hide SplitWired, NoSelfListing, WellFormed, SplitBorn, AfterSetNeighbors, OnlyNeighborsChange;
    var t := ns[i].triangle;
    if !geo.onEdge(t, p) && geo.strictlyInside(t, p) {
      var n := |ns|;
      SplitLengths(ns, i, p);
      SplitWiredNoSelfListing(ns, i, p);
      ChildrenKeepNoSelfListing(SplitWired(ns, i, p), i, [n, n + 1, n + 2]);
    }
  }

  /** The three `SetNeighbors` steps of a split make no node list itself when none did before. */
  lemma SplitWiredNoSelfListing(ns: Arena, i: NodeId, p: Point)
    requires WellFormed(ns) && i < |ns| && NoSelfListing(ns)
    ensures NoSelfListing(SplitWired(ns, i, p))
  {
    hide *;
    var t := ns[i].triangle;
    var n := |ns|;
    SplitEdges(ns, i);
    SplitLengths(ns, i, p);
    SplitSecondStepNoSelfListing(ns, i, p);
    var s2 := AfterSetNeighbors(AfterSetNeighbors(SplitBorn(ns, t, p), i, n, t.a, t.b), i, n + 1, t.b, t.c);
    SplitStageKeepsNoSelfListing(ns, s2, i, n + 2, t.c, t.a);
    SplitWiredSteps(ns, i, p, SplitBorn(ns, t, p), AfterSetNeighbors(SplitBorn(ns, t, p), i, n, t.a, t.b), s2,
                    AfterSetNeighbors(s2, i, n + 2, t.c, t.a));
  }

  /** The first two `SetNeighbors` steps of a split keep the split stage and make no node list itself. */
  lemma SplitSecondStepNoSelfListing(ns: Arena, i: NodeId, p: Point)
    requires WellFormed(ns) && i < |ns| && NoSelfListing(ns)
    ensures var t := ns[i].triangle;
      var s2 := AfterSetNeighbors(AfterSetNeighbors(SplitBorn(ns, t, p), i, |ns|, t.a, t.b), i, |ns| + 1, t.b, t.c);
      |s2| == |ns| + 3 && SplitStage(ns, i, s2) && NoSelfListing(s2)
  {
    hide *;
    var t := ns[i].triangle;
    var n := |ns|;
    SplitEdges(ns, i);
    SplitLengths(ns, i, p);
    SplitFirstStepNoSelfListing(ns, i, p);
    var s1 := AfterSetNeighbors(SplitBorn(ns, t, p), i, n, t.a, t.b);
    SplitStageKeepsNoSelfListing(ns, s1, i, n + 1, t.b, t.c);
  }

  /** The first `SetNeighbors` step of a split keeps the split stage and makes no node list itself. */
  lemma SplitFirstStepNoSelfListing(ns: Arena, i: NodeId, p: Point)
    requires WellFormed(ns) && i < |ns| && NoSelfListing(ns)
    ensures var t := ns[i].triangle;
      var s1 := AfterSetNeighbors(SplitBorn(ns, t, p), i, |ns|, t.a, t.b);
      |s1| == |ns| + 3 && SplitStage(ns, i, s1) && NoSelfListing(s1)
  {
    hide *;
    var t := ns[i].triangle;
    var n := |ns|;
    SplitEdges(ns, i);
    SplitLengths(ns, i, p);
    NoSelfListingAt(ns, i);
    SplitBornStage(ns, i, p);
    BornNoSelfListing(ns, t, p);
    SplitStageKeepsNoSelfListing(ns, SplitBorn(ns, t, p), i, n, t.a, t.b);
  }

  /** A node's triangle has each of its three edges. */
  lemma SplitEdges(ns: Arena, i: NodeId)
    requires i < |ns|
    ensures var t := ns[i].triangle;
      Contains(ns, i, Segment(t.a, t.b)) && Contains(ns, i, Segment(t.b, t.c)) && Contains(ns, i, Segment(t.c, t.a))
  {
  }

  lemma SplitLengths(ns: Arena, i: NodeId, p: Point)
    requires i < |ns|
    ensures var t := ns[i].triangle;
      && |SplitBorn(ns, t, p)| == |ns| + 3
      && |AfterSetNeighbors(SplitBorn(ns, t, p), i, |ns|, t.a, t.b)| == |ns| + 3
      && |SplitWired(ns, i, p)| == |ns| + 3
  {
  }

  lemma NoSelfListingAt(ns: Arena, j: NodeId)
    requires NoSelfListing(ns) && j < |ns|
    ensures j !in ns[j].neighbor
  {
  }

  lemma BornNoSelfListing(ns: Arena, t: Triangle, p: Point)
    requires NoSelfListing(ns)
    ensures NoSelfListing(SplitBorn(ns, t, p))
  {
    var born := SplitBorn(ns, t, p);
    assert forall j | 0 <= j < |ns| :: born[j] == ns[j];
  }

  lemma ChildrenKeepNoSelfListing(ns: Arena, i: NodeId, c: seq<NodeId>)
    requires i < |ns| && NoSelfListing(ns)
    ensures NoSelfListing(ns[i := ns[i].(children := c)])
  {
  }

  /** Under the hypotheses of `FlipWiredNeighbors`, `Flip` makes no node its own neighbor when none was before. */
  lemma FlipKeepsNoSelfListing(ns: Arena, i: NodeId, pair: NodeId, prvEdge: Segment, pointThis: Point, pointPair: Point)
    requires WellFormed(ns) && i < |ns| && pair < |ns| && NoSelfListing(ns)
    requires !Contains(ns, pair, Segment(prvEdge.a, pointThis)) && !Contains(ns, pair, Segment(prvEdge.b, pointThis))
    requires !Contains(ns, i, Segment(prvEdge.a, pointPair)) && !Contains(ns, i, Segment(prvEdge.b, pointPair))
    ensures NoSelfListing(AfterFlip(ns, i, pair, prvEdge, pointThis, pointPair))
  {
    hide AfterSetNeighborWhenFlip, WellFormed, GetFacingNode, OnlyNeighborsChange, FlipStage;
    var n := |ns|;
    var (ea, eb) := (prvEdge.a, prvEdge.b);
    var e1, e2 := Segment(ea, pointThis), Segment(ea, pointPair);
    var e3, e4 := Segment(eb, pointThis), Segment(eb, pointPair);
    assert i !in ns[i].neighbor && pair !in ns[pair].neighbor;
    var born := FlipBorn(ns, prvEdge, pointThis, pointPair);
    FlipBornStage(ns, i, pair, prvEdge, pointThis, pointPair);
    assert NoSelfListing(born);
    FacingInArena(ns, i, e1);
    FacingInArena(ns, pair, e2);
    FacingInArena(ns, i, e3);
    FacingInArena(ns, pair, e4);
    var s1 := AfterSetNeighborWhenFlip(born, n, e1, i);
    FlipStageStep(ns, i, pair, prvEdge, pointThis, pointPair, born, n, e1, i);
    SetNeighborWhenFlipKeepsNoSelfListing(born, n, e1, i);
    var s2 := AfterSetNeighborWhenFlip(s1, n, e2, pair);
    FlipStageStep(ns, i, pair, prvEdge, pointThis, pointPair, s1, n, e2, pair);
    SetNeighborWhenFlipKeepsNoSelfListing(s1, n, e2, pair);
    var s3 := AfterSetNeighborWhenFlip(s2, n + 1, e3, i);
    FlipStageStep(ns, i, pair, prvEdge, pointThis, pointPair, s2, n + 1, e3, i);
    SetNeighborWhenFlipKeepsNoSelfListing(s2, n + 1, e3, i);
    var s4 := AfterSetNeighborWhenFlip(s3, n + 1, e4, pair);
    FlipStageStep(ns, i, pair, prvEdge, pointThis, pointPair, s3, n + 1, e4, pair);
    SetNeighborWhenFlipKeepsNoSelfListing(s3, n + 1, e4, pair);
    var r := AfterFlip(ns, i, pair, prvEdge, pointThis, pointPair);
    forall q | 0 <= q < |r|
      ensures q !in r[q].neighbor
    {
      FlipKeepsWiredLists(ns, i, pair, prvEdge, pointThis, pointPair, q);
    }
  }
}
