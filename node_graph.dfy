/**
 * `DelaunayGraphNode2D`, the mutable simplex graph of the 2D builder, as an arena:
 * every node is a record at a fixed index of a sequence, and its `children` and
 * `neighbor` lists hold indices into that sequence instead of object references.
 *
 * The functions named `After...` give the arena that an operation leaves behind;
 * the methods of `DelaunayGraph2D` perform the operations step by step and are
 * proved to leave exactly that arena; the lemmas state what the source promises
 * about those arenas.
 */
module NodeGraph2D {
  import opened Wrappers
  import opened Geometry

  type NodeId = nat

  /** One `DelaunayGraphNode2D`: its triangle, its split/flip history and its adjacency. */
  datatype DNode = DNode(triangle: Triangle, children: seq<NodeId>, neighbor: seq<NodeId>)

  type Arena = seq<DNode>

  predicate InArena(l: seq<NodeId>, n: nat) {
    forall k | 0 <= k < |l| :: l[k] < n
  }

  /** Every reference held by a node designates a node of the arena. */
  predicate WellFormed(ns: Arena) {
    forall j | 0 <= j < |ns| :: InArena(ns[j].children, |ns|) && InArena(ns[j].neighbor, |ns|)
  }

  lemma NeighborsInArena(ns: Arena, d: NodeId)
    requires WellFormed(ns) && d < |ns|
    ensures InArena(ns[d].neighbor, |ns|)
  {
  }

  lemma PrefixInArena(l: seq<NodeId>, n: nat, h: nat)
    requires InArena(l, n) && h <= |l|
    ensures InArena(l[..h], n)
  {
  }

  lemma ElementInArena(l: seq<NodeId>, n: nat, h: nat)
    requires InArena(l, n) && h < |l|
    ensures l[h] < n
  {
  }

  /** `r` differs from `ns` at most in the neighbor lists. */
  predicate OnlyNeighborsChange(ns: Arena, r: Arena) {
    |r| == |ns| &&
    forall j | 0 <= j < |ns| :: r[j].triangle == ns[j].triangle && r[j].children == ns[j].children
  }

  /**
   * `DelaunayGraphNode2D.Contains(s)`: node `i`'s triangle has `s` as an edge
   * (an index outside the arena designates no node and contains nothing).
   */
  predicate Contains(ns: Arena, i: NodeId, s: Segment) {
    i < |ns| && ContainsSegment(ns[i].triangle, s)
  }

  // ---------------------------------------------------------------------------
  // Queries

  /** The position of the first node of `l` that contains `e` (`List.Find`); `|l|` when there is none. */
  function FirstContaining(ns: Arena, l: seq<NodeId>, e: Segment): (k: nat)
    ensures k <= |l|
    decreases |l|
  {
    if l == [] then 0
    else if Contains(ns, l[0], e) then 0
    else 1 + FirstContaining(ns, l[1..], e)
  }

  /** `FirstContaining` finds the first node of the list that contains `e`, or runs off its end. */
  lemma {:induction false} FirstContainingSpec(ns: Arena, l: seq<NodeId>, e: Segment)
    ensures var k := FirstContaining(ns, l, e);
      && (k < |l| ==> Contains(ns, l[k], e))
      && forall m | 0 <= m < k :: !Contains(ns, l[m], e)
    decreases |l|
  {
    if l != [] && !Contains(ns, l[0], e) {
      FirstContainingSpec(ns, l[1..], e);
      var k := FirstContaining(ns, l, e);
      forall m | 0 <= m < k
        ensures !Contains(ns, l[m], e)
      {
        if m > 0 {
          assert l[m] == l[1..][m - 1];
        }
      }
    }
  }

  /**
   * `GetFacingNode(e)` on node `i`: nothing when `i` does not have edge `e`,
   * otherwise the first neighbor that has edge `e`, if any. `GetFacingNodeSpec`
   * states what it returns.
   */
  function GetFacingNode(ns: Arena, i: NodeId, e: Segment): (r: Option<NodeId>)
    ensures !Contains(ns, i, e) ==> r == None
  {
    if !Contains(ns, i, e) then None
    else
      var k := FirstContaining(ns, ns[i].neighbor, e);
      if k < |ns[i].neighbor| then Some(ns[i].neighbor[k]) else None
  }

  /**
   * The facing node of `i` across `e` is a neighbor of `i` that has edge `e` and that no
   * earlier entry of `i`'s list has; there is none exactly when `i` lacks the edge or
   * no neighbor has it.
   */
  lemma GetFacingNodeSpec(ns: Arena, i: NodeId, e: Segment)
    ensures var r := GetFacingNode(ns, i, e);
      && (!Contains(ns, i, e) ==> r == None)
      && (r.Some? ==> Contains(ns, i, e) && r.value in ns[i].neighbor && Contains(ns, r.value, e))
      && (r.Some? ==>
            exists k | 0 <= k < |ns[i].neighbor| :: ns[i].neighbor[k] == r.value &&
              forall m | 0 <= m < k :: !Contains(ns, ns[i].neighbor[m], e))
      && (r == None && Contains(ns, i, e) ==>
            forall k | 0 <= k < |ns[i].neighbor| :: !Contains(ns, ns[i].neighbor[k], e))
  {
    if Contains(ns, i, e) {
      FirstContainingSpec(ns, ns[i].neighbor, e);
    }
  }

  // ---------------------------------------------------------------------------
  // The arenas the operations leave behind

  /** The list `l` with every entry whose triangle has the edge `e` replaced by `node`. */
  function Rewired(ns: Arena, l: seq<NodeId>, e: Segment, node: NodeId): (r: seq<NodeId>)
    ensures |r| == |l|
  {
    seq(|l|, k requires 0 <= k < |l| => if Contains(ns, l[k], e) then node else l[k])
  }

  /** `SetFacingNode(e, node)` on node `j`. */
  function AfterSetFacingNode(ns: Arena, j: NodeId, e: Segment, node: NodeId): (r: Arena)
    ensures OnlyNeighborsChange(ns, r)
  {
    if j < |ns| && Contains(ns, node, e) then ns[j := ns[j].(neighbor := Rewired(ns, ns[j].neighbor, e, node))]
    else ns
  }

  /** `SetFacingNode(e, node)` on each node of `l` whose triangle has the edge `e`, one after the other. */
  function RewireEach(ns: Arena, l: seq<NodeId>, e: Segment, node: NodeId): (r: Arena)
    ensures OnlyNeighborsChange(ns, r)
    decreases |l|
  {
    if l == [] then ns
    else
      var prev := RewireEach(ns, l[..|l| - 1], e, node);
      var n := l[|l| - 1];
      if Contains(prev, n, e) then AfterSetFacingNode(prev, n, e, node) else prev
  }

  /** `ns` with `q` appended to node `x`'s neighbor list. */
  function Adopt(ns: Arena, x: NodeId, q: NodeId): (r: Arena)
    requires x < |ns|
    ensures OnlyNeighborsChange(ns, r)
  {
    ns[x := ns[x].(neighbor := ns[x].neighbor + [q])]
  }

  /** `SetNeighbors(tgt, p1, p2)` called on node `i`. */
  function AfterSetNeighbors(ns: Arena, i: NodeId, tgt: NodeId, p1: Point, p2: Point): (r: Arena)
    requires tgt < |ns|
    ensures OnlyNeighborsChange(ns, r)
  {
    var edge := Segment(p1, p2);
    match GetFacingNode(ns, i, edge)
    case None => ns
    case Some(pair) =>
      var appended := Adopt(ns, tgt, pair);
      RewireEach(appended, appended[i].neighbor, edge, tgt)
  }

  /** `SetNeighborWhenFlip(e, retired)` called on node `x`. */
  function AfterSetNeighborWhenFlip(ns: Arena, x: NodeId, e: Segment, retired: NodeId): (r: Arena)
    requires x < |ns|
    ensures OnlyNeighborsChange(ns, r)
  {
    match GetFacingNode(ns, retired, e)
    case None => ns
    case Some(pair) => AfterSetFacingNode(Adopt(ns, x, pair), pair, e, x)
  }

  /** The three fresh children of a split, each wired to its two siblings. */
  function SplitBorn(ns: Arena, t: Triangle, p: Point): (r: Arena)
    ensures |r| == |ns| + 3 && r[..|ns|] == ns
  {
    var n := |ns|;
    ns + [DNode(Triangle(t.a, t.b, p), [], [n + 1, n + 2]),
          DNode(Triangle(t.b, t.c, p), [], [n + 2, n]),
          DNode(Triangle(t.c, t.a, p), [], [n, n + 1])]
  }

  /** The three `SetNeighbors` calls of a split, which wire the children `n`, `n + 1`, `n + 2` to the outside. */
  function SplitWired(ns: Arena, i: NodeId, p: Point): (r: Arena)
    requires i < |ns|
    ensures OnlyNeighborsChange(SplitBorn(ns, ns[i].triangle, p), r)
  {
    var t := ns[i].triangle;
    var n := |ns|;
    var s1 := AfterSetNeighbors(SplitBorn(ns, t, p), i, n, t.a, t.b);
    var s2 := AfterSetNeighbors(s1, i, n + 1, t.b, t.c);
    AfterSetNeighbors(s2, i, n + 2, t.c, t.a)
  }

  /** `Split(p)` on node `i`, given the oracle's verdicts on `p`. */
  function AfterSplit(ns: Arena, i: NodeId, p: Point, geo: TriangleOracle): (r: Arena)
    requires i < |ns|
    ensures |r| == if geo.onEdge(ns[i].triangle, p) || !geo.strictlyInside(ns[i].triangle, p) then |ns| else |ns| + 3
  {
    var t := ns[i].triangle;
    if geo.onEdge(t, p) || !geo.strictlyInside(t, p) then ns
    else
      var w := SplitWired(ns, i, p);
      w[i := w[i].(children := [|ns|, |ns| + 1, |ns| + 2])]
  }

  /** The two fresh nodes of a flip, each wired to the other. */
  function FlipBorn(ns: Arena, prvEdge: Segment, pointThis: Point, pointPair: Point): (r: Arena)
    ensures |r| == |ns| + 2 && r[..|ns|] == ns
  {
    var n := |ns|;
    ns + [DNode(Triangle(pointThis, pointPair, prvEdge.a), [], [n + 1]),
          DNode(Triangle(pointThis, pointPair, prvEdge.b), [], [n])]
  }

  /** The four `SetNeighborWhenFlip` calls of a flip, which wire `n` and `n + 1` to the outside. */
  function FlipWired(ns: Arena, i: NodeId, pair: NodeId, prvEdge: Segment, pointThis: Point, pointPair: Point): (r: Arena)
    ensures OnlyNeighborsChange(FlipBorn(ns, prvEdge, pointThis, pointPair), r)
  {
    var n := |ns|;
    var s1 := AfterSetNeighborWhenFlip(FlipBorn(ns, prvEdge, pointThis, pointPair), n, Segment(prvEdge.a, pointThis), i);
    var s2 := AfterSetNeighborWhenFlip(s1, n, Segment(prvEdge.a, pointPair), pair);
    var s3 := AfterSetNeighborWhenFlip(s2, n + 1, Segment(prvEdge.b, pointThis), i);
    AfterSetNeighborWhenFlip(s3, n + 1, Segment(prvEdge.b, pointPair), pair)
  }

  /** `Flip(pair, prvEdge, pointThis, pointPair)` on node `i`. */
  function AfterFlip(ns: Arena, i: NodeId, pair: NodeId, prvEdge: Segment, pointThis: Point, pointPair: Point): (r: Arena)
    requires i < |ns| && pair < |ns|
    ensures |r| == |ns| + 2
  {
    var w := FlipWired(ns, i, pair, prvEdge, pointThis, pointPair);
    var s := w[i := w[i].(children := [|ns|, |ns| + 1])];
    s[pair := s[pair].(children := [|ns|, |ns| + 1])]
  }

  // ---------------------------------------------------------------------------
  // Every operation keeps the arena well formed

  lemma RewiredInArena(ns: Arena, l: seq<NodeId>, e: Segment, node: NodeId, n: nat)
    requires InArena(l, n) && node < n
    ensures InArena(Rewired(ns, l, e, node), n)
  {
  }

  /** Replacing one node's neighbor list by one that stays in the arena keeps the arena well formed. */
  lemma UpdateNeighborKeepsWellFormed(ns: Arena, x: NodeId, l: seq<NodeId>)
    requires WellFormed(ns) && x < |ns| && InArena(l, |ns|)
    ensures WellFormed(ns[x := ns[x].(neighbor := l)])
  {
    var r := ns[x := ns[x].(neighbor := l)];
    forall j | 0 <= j < |r|
      ensures InArena(r[j].children, |r|) && InArena(r[j].neighbor, |r|)
    {
      if j != x {
        assert r[j] == ns[j];
      }
    }
  }

  lemma SetFacingNodeKeepsWellFormed(ns: Arena, j: NodeId, e: Segment, node: NodeId)
    requires WellFormed(ns) && node < |ns|
    ensures WellFormed(AfterSetFacingNode(ns, j, e, node))
  {
    if j < |ns| && Contains(ns, node, e) {
      RewiredInArena(ns, ns[j].neighbor, e, node, |ns|);
      UpdateNeighborKeepsWellFormed(ns, j, Rewired(ns, ns[j].neighbor, e, node));
    }
  }

  lemma {:induction false} RewireEachKeepsWellFormed(ns: Arena, l: seq<NodeId>, e: Segment, node: NodeId)
    requires WellFormed(ns) && node < |ns|
    ensures WellFormed(RewireEach(ns, l, e, node))
    decreases |l|
  {
    if l != [] {
      var prev := RewireEach(ns, l[..|l| - 1], e, node);
      RewireEachKeepsWellFormed(ns, l[..|l| - 1], e, node);
      SetFacingNodeKeepsWellFormed(prev, l[|l| - 1], e, node);
    }
  }

  lemma AdoptKeepsWellFormed(ns: Arena, x: NodeId, q: NodeId)
    requires WellFormed(ns) && x < |ns| && q < |ns|
    ensures WellFormed(Adopt(ns, x, q))
  {
    UpdateNeighborKeepsWellFormed(ns, x, ns[x].neighbor + [q]);
  }

  lemma SetNeighborsKeepsWellFormed(ns: Arena, i: NodeId, tgt: NodeId, p1: Point, p2: Point)
    requires WellFormed(ns) && tgt < |ns|
    ensures WellFormed(AfterSetNeighbors(ns, i, tgt, p1, p2))
  {
    var f := GetFacingNode(ns, i, Segment(p1, p2));
    GetFacingNodeSpec(ns, i, Segment(p1, p2));
    if f.Some? {
      AdoptKeepsWellFormed(ns, tgt, f.value);
      var appended := Adopt(ns, tgt, f.value);
      RewireEachKeepsWellFormed(appended, appended[i].neighbor, Segment(p1, p2), tgt);
    }
  }

  lemma SetNeighborWhenFlipKeepsWellFormed(ns: Arena, x: NodeId, e: Segment, retired: NodeId)
    requires WellFormed(ns) && x < |ns|
    ensures WellFormed(AfterSetNeighborWhenFlip(ns, x, e, retired))
  {
    var f := GetFacingNode(ns, retired, e);
    GetFacingNodeSpec(ns, retired, e);
    if f.Some? {
      AdoptKeepsWellFormed(ns, x, f.value);
      SetFacingNodeKeepsWellFormed(Adopt(ns, x, f.value), f.value, e, x);
    }
  }

  lemma WellFormedExtend(ns: Arena, r: Arena)
    requires WellFormed(ns) && |ns| <= |r| && r[..|ns|] == ns
    requires forall j | |ns| <= j < |r| :: InArena(r[j].children, |r|) && InArena(r[j].neighbor, |r|)
    ensures WellFormed(r)
  {
    forall j | 0 <= j < |ns|
      ensures InArena(r[j].children, |r|) && InArena(r[j].neighbor, |r|)
    {
      assert r[j] == ns[j];
    }
  }

  /** Replacing one node's children list by one that stays in the arena keeps the arena well formed. */
  lemma UpdateChildrenKeepsWellFormed(ns: Arena, x: NodeId, l: seq<NodeId>)
    requires WellFormed(ns) && x < |ns| && InArena(l, |ns|)
    ensures WellFormed(ns[x := ns[x].(children := l)])
  {
    var r := ns[x := ns[x].(children := l)];
    forall j | 0 <= j < |r|
      ensures InArena(r[j].children, |r|) && InArena(r[j].neighbor, |r|)
    {
      if j != x {
        assert r[j] == ns[j];
      }
    }
  }

  /** The three `SetNeighbors` steps, one after the other, leave `SplitWired`. */
  lemma SplitWiredSteps(ns: Arena, i: NodeId, p: Point, s0: Arena, s1: Arena, s2: Arena, s3: Arena)
    requires i < |ns|
    requires s0 == SplitBorn(ns, ns[i].triangle, p)
    requires s1 == AfterSetNeighbors(s0, i, |ns|, ns[i].triangle.a, ns[i].triangle.b)
    requires s2 == AfterSetNeighbors(s1, i, |ns| + 1, ns[i].triangle.b, ns[i].triangle.c)
    requires s3 == AfterSetNeighbors(s2, i, |ns| + 2, ns[i].triangle.c, ns[i].triangle.a)
    ensures s3 == SplitWired(ns, i, p)
  {
    hide AfterSetNeighbors;
  }

  lemma SplitBornKeepsWellFormed(ns: Arena, t: Triangle, p: Point)
    requires WellFormed(ns)
    ensures WellFormed(SplitBorn(ns, t, p))
  {
    WellFormedExtend(ns, SplitBorn(ns, t, p));
  }

  lemma SplitWiredKeepsWellFormed(ns: Arena, i: NodeId, p: Point)
    requires WellFormed(ns) && i < |ns|
    ensures WellFormed(SplitWired(ns, i, p))
  {
    hide AfterSetNeighbors;
    var t := ns[i].triangle;
    var n := |ns|;
    var born := SplitBorn(ns, t, p);
    SplitBornKeepsWellFormed(ns, t, p);
    var s1 := AfterSetNeighbors(born, i, n, t.a, t.b);
    SetNeighborsKeepsWellFormed(born, i, n, t.a, t.b);
    var s2 := AfterSetNeighbors(s1, i, n + 1, t.b, t.c);
    SetNeighborsKeepsWellFormed(s1, i, n + 1, t.b, t.c);
    SetNeighborsKeepsWellFormed(s2, i, n + 2, t.c, t.a);
  }

  /** A split keeps every reference inside the arena. */
  lemma SplitKeepsWellFormed(ns: Arena, i: NodeId, p: Point, geo: TriangleOracle)
    requires WellFormed(ns) && i < |ns|
    ensures WellFormed(AfterSplit(ns, i, p, geo))
  {
    hide SplitWired;
    var t := ns[i].triangle;
    if !geo.onEdge(t, p) && geo.strictlyInside(t, p) {
      var n := |ns|;
      var w := SplitWired(ns, i, p);
      SplitWiredKeepsWellFormed(ns, i, p);
      assert InArena([n, n + 1, n + 2], |w|);
      UpdateChildrenKeepsWellFormed(w, i, [n, n + 1, n + 2]);
    }
  }

  lemma FlipBornKeepsWellFormed(ns: Arena, prvEdge: Segment, pointThis: Point, pointPair: Point)
    requires WellFormed(ns)
    ensures WellFormed(FlipBorn(ns, prvEdge, pointThis, pointPair))
  {
    WellFormedExtend(ns, FlipBorn(ns, prvEdge, pointThis, pointPair));
  }

  lemma FlipWiredKeepsWellFormed(ns: Arena, i: NodeId, pair: NodeId, prvEdge: Segment, pointThis: Point, pointPair: Point)
    requires WellFormed(ns)
    ensures WellFormed(FlipWired(ns, i, pair, prvEdge, pointThis, pointPair))
  {
    hide AfterSetNeighborWhenFlip;
    var n := |ns|;
    var born := FlipBorn(ns, prvEdge, pointThis, pointPair);
    FlipBornKeepsWellFormed(ns, prvEdge, pointThis, pointPair);
    var s1 := AfterSetNeighborWhenFlip(born, n, Segment(prvEdge.a, pointThis), i);
    SetNeighborWhenFlipKeepsWellFormed(born, n, Segment(prvEdge.a, pointThis), i);
    var s2 := AfterSetNeighborWhenFlip(s1, n, Segment(prvEdge.a, pointPair), pair);
    SetNeighborWhenFlipKeepsWellFormed(s1, n, Segment(prvEdge.a, pointPair), pair);
    var s3 := AfterSetNeighborWhenFlip(s2, n + 1, Segment(prvEdge.b, pointThis), i);
    SetNeighborWhenFlipKeepsWellFormed(s2, n + 1, Segment(prvEdge.b, pointThis), i);
    SetNeighborWhenFlipKeepsWellFormed(s3, n + 1, Segment(prvEdge.b, pointPair), pair);
  }

  /** The four `SetNeighborWhenFlip` steps, one after the other, leave `FlipWired`. */
  lemma FlipWiredSteps(ns: Arena, i: NodeId, pair: NodeId, prvEdge: Segment, pointThis: Point, pointPair: Point,
                       s0: Arena, s1: Arena, s2: Arena, s3: Arena, s4: Arena)
    requires s0 == FlipBorn(ns, prvEdge, pointThis, pointPair)
    requires s1 == AfterSetNeighborWhenFlip(s0, |ns|, Segment(prvEdge.a, pointThis), i)
    requires s2 == AfterSetNeighborWhenFlip(s1, |ns|, Segment(prvEdge.a, pointPair), pair)
    requires s3 == AfterSetNeighborWhenFlip(s2, |ns| + 1, Segment(prvEdge.b, pointThis), i)
    requires s4 == AfterSetNeighborWhenFlip(s3, |ns| + 1, Segment(prvEdge.b, pointPair), pair)
    ensures s4 == FlipWired(ns, i, pair, prvEdge, pointThis, pointPair)
  {
    hide AfterSetNeighborWhenFlip;
  }

  /** A flip keeps every reference inside the arena. */
  lemma FlipKeepsWellFormed(ns: Arena, i: NodeId, pair: NodeId, prvEdge: Segment, pointThis: Point, pointPair: Point)
    requires WellFormed(ns) && i < |ns| && pair < |ns|
    ensures WellFormed(AfterFlip(ns, i, pair, prvEdge, pointThis, pointPair))
  {
    hide FlipWired;
    var n := |ns|;
    var w := FlipWired(ns, i, pair, prvEdge, pointThis, pointPair);
    FlipWiredKeepsWellFormed(ns, i, pair, prvEdge, pointThis, pointPair);
    assert InArena([n, n + 1], |w|);
    UpdateChildrenKeepsWellFormed(w, i, [n, n + 1]);
    var s := w[i := w[i].(children := [n, n + 1])];
    UpdateChildrenKeepsWellFormed(s, pair, [n, n + 1]);
  }

  // ---------------------------------------------------------------------------
  // The graph object

  /** The arena of `DelaunayGraphNode2D` objects; each method is one operation of the source. */
  class DelaunayGraph2D {
    var nodes: Arena

    ghost predicate Valid()
      reads this
    {
      WellFormed(nodes)
    }

    constructor ()
      ensures Valid() && nodes == []
    {
      nodes := [];
    }

    /** `new DelaunayGraphNode2D(a, b, c)`: a node with no children and no neighbors. */
    method NewNode(a: Point, b: Point, c: Point) returns (id: NodeId)
      requires Valid()
      modifies this
      ensures Valid()
      ensures id == |old(nodes)| && nodes == old(nodes) + [DNode(Triangle(a, b, c), [], [])]
    {
      id := |nodes|;
      nodes := nodes + [DNode(Triangle(a, b, c), [], [])];
    }

    /**
     * `SetFacingNode(e, node)` on node `j`: nothing happens unless `node` has edge `e`;
     * otherwise every entry of `j`'s neighbor list that has edge `e` becomes `node`.
     */
    method SetFacingNode(j: NodeId, e: Segment, node: NodeId)
      requires Valid() && j < |nodes| && node < |nodes|
      modifies this
      ensures Valid() && nodes == AfterSetFacingNode(old(nodes), j, e, node)
      ensures !Contains(old(nodes), node, e) ==> nodes == old(nodes)
      ensures |nodes| == |old(nodes)| && |nodes[j].neighbor| == |old(nodes)[j].neighbor|
      ensures Contains(old(nodes), node, e) ==>
        forall k | 0 <= k < |nodes[j].neighbor| ::
          nodes[j].neighbor[k] == if Contains(old(nodes), old(nodes)[j].neighbor[k], e) then node else old(nodes)[j].neighbor[k]
      ensures nodes[j].triangle == old(nodes)[j].triangle && nodes[j].children == old(nodes)[j].children
      ensures forall o | 0 <= o < |nodes| && o != j :: nodes[o] == old(nodes)[o]
    {
      SetFacingNodeKeepsWellFormed(nodes, j, e, node);
      if !Contains(nodes, node, e) {
        return;
      }
      nodes := nodes[j := nodes[j].(neighbor := Rewired(nodes, nodes[j].neighbor, e, node))];
    }

    /**
     * `SetNeighbors(tgt, p1, p2)` on node `i`: when `i` has a node facing it across
     * `(p1, p2)`, `tgt` adopts it and every neighbor of `i` with that edge is rewired to `tgt`.
     */
    method SetNeighbors(i: NodeId, tgt: NodeId, p1: Point, p2: Point)
      requires Valid() && i < |nodes| && tgt < |nodes|
      modifies this
      ensures Valid() && nodes == AfterSetNeighbors(old(nodes), i, tgt, p1, p2)
    {
      hide AfterSetFacingNode, Rewired, OnlyNeighborsChange, FirstContaining;
      var edge := Segment(p1, p2);
      var pair := GetFacingNode(nodes, i, edge);
      if pair.Some? {
        AdoptKeepsWellFormed(nodes, tgt, pair.value);
        nodes := nodes[tgt := nodes[tgt].(neighbor := nodes[tgt].neighbor + [pair.value])];
        ghost var appended := nodes;
        var around := nodes[i].neighbor;
        var k := 0;
        while k < |around|
          invariant 0 <= k <= |around|
          invariant InArena(around, |appended|)
          invariant nodes == RewireEach(appended, around[..k], edge, tgt)
          invariant Valid() && |nodes| == |appended|
        {
          var n := around[k];
          if Contains(nodes, n, edge) {
            SetFacingNode(n, edge, tgt);
          }
          assert around[..k + 1][..k] == around[..k];
          k := k + 1;
        }
        assert around[..k] == around;
      }
    }

    /**
     * `SetNeighborWhenFlip(e, retired)` on node `x`: when `retired` has a node facing it
     * across `e`, `x` adopts it and that node's entries across `e` are rewired to `x`.
     */
    method SetNeighborWhenFlip(x: NodeId, e: Segment, retired: NodeId)
      requires Valid() && x < |nodes| && retired < |nodes|
      modifies this
      ensures Valid() && nodes == AfterSetNeighborWhenFlip(old(nodes), x, e, retired)
    {
      var pair := GetFacingNode(nodes, retired, e);
      if pair.Some? {
        AdoptKeepsWellFormed(nodes, x, pair.value);
        nodes := nodes[x := nodes[x].(neighbor := nodes[x].neighbor + [pair.value])];
        SetFacingNode(pair.value, e, x);
      }
    }

    /**
     * `Split(p)` on node `i`. A point on an edge is rejected with `PointOnEdge` and
     * nothing changes; a point that is not strictly inside changes nothing; otherwise
     * `i` gets three children, one per edge of its triangle, wired to each other and to
     * the outside.
     */
    method Split(i: NodeId, p: Point, geo: TriangleOracle) returns (r: Outcome)
      requires Valid() && i < |nodes|
      modifies this
      ensures Valid() && nodes == AfterSplit(old(nodes), i, p, geo)
      ensures r.Fail? <==> geo.onEdge(old(nodes)[i].triangle, p)
      ensures r.Fail? || !geo.strictlyInside(old(nodes)[i].triangle, p) ==> nodes == old(nodes)
    {
      hide AfterSetNeighbors, SplitWired, GetFacingNode, RewireEach, AfterSetFacingNode;
      var t := nodes[i].triangle;
      if geo.onEdge(t, p) {
        return Fail(PointOnEdge);
      }
      if geo.strictlyInside(t, p) {
        ghost var ns := nodes;
        var ab := NewNode(t.a, t.b, p);
        var bc := NewNode(t.b, t.c, p);
        var ca := NewNode(t.c, t.a, p);
        nodes := nodes[ab := nodes[ab].(neighbor := [bc, ca])];
        nodes := nodes[bc := nodes[bc].(neighbor := [ca, ab])];
        nodes := nodes[ca := nodes[ca].(neighbor := [ab, bc])];
        assert nodes == SplitBorn(ns, t, p);
        WellFormedExtend(ns, nodes);
        ghost var s0 := nodes;
        SetNeighbors(i, ab, t.a, t.b);
        ghost var s1 := nodes;
        SetNeighbors(i, bc, t.b, t.c);
        ghost var s2 := nodes;
        SetNeighbors(i, ca, t.c, t.a);
        SplitWiredSteps(ns, i, p, s0, s1, s2, nodes);
        nodes := nodes[i := nodes[i].(children := [ab, bc, ca])];
        SplitKeepsWellFormed(ns, i, p, geo);
      }
      return Pass;
    }

    /**
     * `Flip(pair, prvEdge, pointThis, pointPair)` on node `i`: the triangles of `i` and
     * `pair`, which share `prvEdge`, are replaced by two triangles sharing
     * `(pointThis, pointPair)`; both retired nodes get them as children.
     */
    method Flip(i: NodeId, pair: NodeId, prvEdge: Segment, pointThis: Point, pointPair: Point)
      requires Valid() && i < |nodes| && pair < |nodes|
      modifies this
      ensures Valid() && nodes == AfterFlip(old(nodes), i, pair, prvEdge, pointThis, pointPair)
      ensures |nodes| == |old(nodes)| + 2
      ensures nodes[i].children == [|old(nodes)|, |old(nodes)| + 1]
      ensures nodes[pair].children == [|old(nodes)|, |old(nodes)| + 1]
    {
      hide AfterSetNeighborWhenFlip;
      hide FlipWired;
      ghost var ns := nodes;
      var newEdge := Segment(pointThis, pointPair);
      var na := NewNode(newEdge.a, newEdge.b, prvEdge.a);
      var nb := NewNode(newEdge.a, newEdge.b, prvEdge.b);
      nodes := nodes[na := nodes[na].(neighbor := [nb])];
      nodes := nodes[nb := nodes[nb].(neighbor := [na])];
      assert nodes == FlipBorn(ns, prvEdge, pointThis, pointPair);
      WellFormedExtend(ns, nodes);
      ghost var s0 := nodes;
      SetNeighborWhenFlip(na, Segment(prvEdge.a, pointThis), i);
      ghost var s1 := nodes;
      SetNeighborWhenFlip(na, Segment(prvEdge.a, pointPair), pair);
      ghost var s2 := nodes;
      SetNeighborWhenFlip(nb, Segment(prvEdge.b, pointThis), i);
      ghost var s3 := nodes;
      SetNeighborWhenFlip(nb, Segment(prvEdge.b, pointPair), pair);
      FlipWiredSteps(ns, i, pair, prvEdge, pointThis, pointPair, s0, s1, s2, s3, nodes);
      nodes := nodes[i := nodes[i].(children := [na, nb])];
      nodes := nodes[pair := nodes[pair].(children := [na, nb])];
      FlipKeepsWellFormed(ns, i, pair, prvEdge, pointThis, pointPair);
    }
  }

  /** `Split` throws `ArgumentOutOfRangeException` for a point on an edge. */
  datatype SplitError = PointOnEdge

  datatype Outcome = Pass | Fail(error: SplitError)
}
