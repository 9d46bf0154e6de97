# NodeGraph2D in Dafny

This project models the combinatorial core of the 2D incremental Delaunay builder
(`Assets/BisterllarFlip/2D/NodeGraph2D.cs`) and proves what that core promises.

- **`DelaunayGraphNode2D`** is the mutable simplex graph. Each node has a triangle, a
  `children` list (its split and flip history) and a `neighbor` list (its adjacency).
  - `Split(p)` replaces a triangle with three children around `p`.
  - `Flip` replaces two triangles that share an edge with the two triangles on the
    other diagonal.
  - `SetNeighbors`, `SetNeighborWhenFlip`, `SetFacingNode` and `GetFacingNode` do the
    edge-keyed rewiring of the neighbor lists.
- **`VoronoiGraph2D`** builds the dual from a list of triangle nodes.
  - It makes one cell per distinct triangle vertex, keyed by coordinate.
  - It attaches circumcenter-to-circumcenter segments to those cells.

Layout:

- `geometry.dfy`
  - Points, segments, triangles, and segment equality as an unordered pair.
  - The orthogonality test.
  - `TriangleOracle`: the triangle predicates that are not part of this model.
  - The small `Option` type.
- `node_graph.dfy` (module `NodeGraph2D`)
  - The nodes live in an *arena*: a `seq<DNode>` in which a node is named by its
    index. `children` and `neighbor` are lists of indices.
  - Each operation has a specification function `After...` giving the arena it
    leaves.
  - The class `DelaunayGraph2D` holds the arena in a field. Its methods perform each
    operation step by step, as the source does, and are proved to leave exactly the
    arena of the matching `After...` function.
  - Every operation keeps every index inside the arena (`WellFormed`).
- `node_graph_props.dfy` (module `NodeGraph2DProperties`): what the operations
  promise, proved over the `After...` functions.
- `voronoi_graph.dfy` (module `VoronoiGraph2D`)
  - The dictionary is a `map<Point, VNode>`.
  - The constructor runs the source's two nested loops.
  - It is proved to end with the cells that the specification functions `Sites` and
    `CellSegments` describe.

## Model

| member | source | states |
|---|---|---|
| Geometry.ContainsSegmentByVertices | Assets/BisterllarFlip/2D/NodeGraph2D.cs:16 | for a proper segment and a triangle with distinct vertices, `Contains` holds exactly when both end points are vertices of the triangle |
| NodeGraph2D.FirstContainingSpec | Assets/BisterllarFlip/2D/NodeGraph2D.cs:82 | `List.Find` over the neighbor list: the position found holds a node with the edge, and no earlier entry has the edge |
| NodeGraph2D.GetFacingNodeSpec | Assets/BisterllarFlip/2D/NodeGraph2D.cs:79-83 | null when the node lacks the edge; otherwise the first listed neighbor that has the edge, or null when none has it; a non-null result is a listed neighbor and has the edge |
| NodeGraph2D.DelaunayGraph2D.NewNode | Assets/BisterllarFlip/2D/NodeGraph2D.cs:19-23 | a new node has the given triangle, no children and no neighbors; no existing node changes |
| NodeGraph2D.DelaunayGraph2D.SetFacingNode | Assets/BisterllarFlip/2D/NodeGraph2D.cs:74-77 | no-op when `node` lacks the edge; otherwise the list keeps its length, every entry that has the edge becomes `node`, every other entry stays, and no other node changes |
| NodeGraph2D.DelaunayGraph2D.SetNeighbors | Assets/BisterllarFlip/2D/NodeGraph2D.cs:41-48 | the loop over the parent's neighbors leaves exactly the arena `AfterSetNeighbors` gives, and the arena stays well formed |
| NodeGraph2D.DelaunayGraph2D.SetNeighborWhenFlip | Assets/BisterllarFlip/2D/NodeGraph2D.cs:66-72 | leaves exactly the arena `AfterSetNeighborWhenFlip` gives, and the arena stays well formed |
| NodeGraph2D.DelaunayGraph2D.Split | Assets/BisterllarFlip/2D/NodeGraph2D.cs:25-39 | fails exactly when `p` is on an edge; nothing changes when it fails or when `p` is not strictly inside; otherwise leaves exactly the arena `AfterSplit` gives |
| NodeGraph2D.DelaunayGraph2D.Flip | Assets/BisterllarFlip/2D/NodeGraph2D.cs:50-64 | appends two nodes; both retired nodes end with `children == [na, nb]`; leaves exactly the arena `AfterFlip` gives |
| NodeGraph2D.SetFacingNodeKeepsWellFormed | Assets/BisterllarFlip/2D/NodeGraph2D.cs:74-77 | rewiring a list with a node of the arena keeps every reference inside the arena |
| NodeGraph2D.SetNeighborsKeepsWellFormed | Assets/BisterllarFlip/2D/NodeGraph2D.cs:41-48 | `SetNeighbors` keeps every reference inside the arena |
| NodeGraph2D.SetNeighborWhenFlipKeepsWellFormed | Assets/BisterllarFlip/2D/NodeGraph2D.cs:66-72 | `SetNeighborWhenFlip` keeps every reference inside the arena |
| NodeGraph2D.SplitKeepsWellFormed | Assets/BisterllarFlip/2D/NodeGraph2D.cs:25-39 | a split keeps every reference inside the arena, the new children included |
| NodeGraph2D.FlipKeepsWellFormed | Assets/BisterllarFlip/2D/NodeGraph2D.cs:50-64 | a flip keeps every reference inside the arena, the new nodes included |
| NodeGraph2DProperties.RewiredIdempotent | Assets/BisterllarFlip/2D/NodeGraph2D.cs:76 | rewiring a list twice with the same node (which has the edge) is the same as rewiring it once |
| NodeGraph2DProperties.RewireEachEffect | Assets/BisterllarFlip/2D/NodeGraph2D.cs:46 | after the `ForEach`, each listed node with the edge has its list rewired exactly once, even when it is listed twice; every other list is unchanged |
| NodeGraph2DProperties.GetFacingNodeFrame | Assets/BisterllarFlip/2D/NodeGraph2D.cs:79-83 | the facing node depends only on the node's own list and the triangles, so appending nodes or editing other lists does not change it |
| NodeGraph2DProperties.SetNeighborsEffect | Assets/BisterllarFlip/2D/NodeGraph2D.cs:41-48 | no facing node: nothing changes. Otherwise `tgt` appends it, the parent's neighbors with the edge are rewired to `tgt`, and the facing node's entries across the edge all refer to `tgt` |
| NodeGraph2DProperties.SetNeighborWhenFlipEffect | Assets/BisterllarFlip/2D/NodeGraph2D.cs:66-72 | no facing node: nothing changes. Otherwise `x` appends the facing node `q`, `q`'s entries across the edge refer to `x`, only `x`'s list grows (by one), and no other list changes |
| NodeGraph2DProperties.SetNeighborsAgreesWithWhenFlip | Assets/BisterllarFlip/2D/NodeGraph2D.cs:41-72 | `SetNeighbors(tgt, p1, p2)` on `i` and `tgt.SetNeighborWhenFlip((p1, p2), i)` leave the same arena when at most one neighbor of `i` lies across the edge |
| NodeGraph2DProperties.SplitWiredNeighbors | Assets/BisterllarFlip/2D/NodeGraph2D.cs:31-36 | after the three `SetNeighbors` calls, each child's list is its two siblings followed by the node that faced the parent across the child's outer edge, if any |
| NodeGraph2DProperties.SplitChildren | Assets/BisterllarFlip/2D/NodeGraph2D.cs:28-37 | a successful split appends exactly three nodes `(a,b,p)`, `(b,c,p)`, `(c,a,p)` with no children, each listing its two siblings first; the parent gets `children == [ab, bc, ca]` and nothing else on it changes |
| NodeGraph2DProperties.SplitSiblings | Assets/BisterllarFlip/2D/NodeGraph2D.cs:31-33 | every child lists both of its siblings, so sibling adjacency is symmetric |
| NodeGraph2DProperties.SplitRewiresOuter | Assets/BisterllarFlip/2D/NodeGraph2D.cs:34-36 | in an outside neighbor's list, every entry that shares an edge of the parent's triangle with that neighbor now refers to the child across the edge, the parent's own entries included; every other entry stays; the list keeps its length |
| NodeGraph2DProperties.SplitFrame | Assets/BisterllarFlip/2D/NodeGraph2D.cs:25-48 | a node other than the parent that the parent does not list is exactly as it was after the split |
| NodeGraph2DProperties.SplitSymmetric | Assets/BisterllarFlip/2D/NodeGraph2D.cs:34-36 | for each outer edge, when the node facing the parent across it lists the parent back, the child across that edge lists that node and that node lists the child |
| NodeGraph2DProperties.FlipShape | Assets/BisterllarFlip/2D/NodeGraph2D.cs:50-63 | `na = (pointThis, pointPair, prvEdge.a)` and `nb = (pointThis, pointPair, prvEdge.b)` are appended without children; both retired nodes get `children == [na, nb]`; no other triangle or children list changes |
| NodeGraph2DProperties.FlipStep | Assets/BisterllarFlip/2D/NodeGraph2D.cs:66-72 | one `SetNeighborWhenFlip` step grows only the adopting node's list, by at most one entry, and keeps the first entry of any list whose head is unaffected by the edge |
| NodeGraph2DProperties.FlipNeighborBound | Assets/BisterllarFlip/2D/NodeGraph2D.cs:54-60 | after a flip, each new node has between one and three neighbors |
| NodeGraph2DProperties.WhenFlipKeepsHead | Assets/BisterllarFlip/2D/NodeGraph2D.cs:66-72 | a `SetNeighborWhenFlip` step keeps the first entry of a list when that entry is the adopting node or does not have the edge |
| NodeGraph2DProperties.FlipSiblingsFirst | Assets/BisterllarFlip/2D/NodeGraph2D.cs:54-60 | after a flip of a proper quadrilateral, `na` and `nb` are each other's first neighbor |
| NodeGraph2DProperties.FlipWiredNeighbors | Assets/BisterllarFlip/2D/NodeGraph2D.cs:55-60 | after a flip, `na`'s list is exactly `nb`, then the node facing the retired `this` across `(prvEdge.a, pointThis)`, then the node facing `pair` across `(prvEdge.a, pointPair)`, each when there is one; `nb`'s likewise with `prvEdge.b` |
| NodeGraph2DProperties.FlipRewiresOuter | Assets/BisterllarFlip/2D/NodeGraph2D.cs:57-60 | after a flip, every old list keeps its length and its entries that share none of the four outer edges; the node facing `this` or `pair` across an outer edge now lists `na` or `nb` (the new node on that edge) where it listed the retired node |
| NodeGraph2DProperties.FlipSymmetric | Assets/BisterllarFlip/2D/NodeGraph2D.cs:57-60 | for each outer edge, when the node facing the retired node across it lists the retired node back, the new node on that edge lists that node and that node lists the new node |
| NodeGraph2DProperties.FlipFrame | Assets/BisterllarFlip/2D/NodeGraph2D.cs:57-60 | after a flip, an old node that faces neither `this` across `(prvEdge.a, pointThis)` or `(prvEdge.b, pointThis)` nor `pair` across `(prvEdge.a, pointPair)` or `(prvEdge.b, pointPair)` keeps its list exactly |
| NodeGraph2DProperties.FlipRetiredKeepLists | Assets/BisterllarFlip/2D/NodeGraph2D.cs:57-63 | after a flip, `this` and `pair` still list exactly the neighbors they listed before; only their children change |
| NodeGraph2DProperties.SetNeighborsKeepsNoSelfListing | Assets/BisterllarFlip/2D/NodeGraph2D.cs:41-48 | when `i` does not list `tgt`, a `SetNeighbors` call on `i` makes no node its own neighbor if none was before |
| NodeGraph2DProperties.SetNeighborWhenFlipKeepsNoSelfListing | Assets/BisterllarFlip/2D/NodeGraph2D.cs:66-72 | when `x` is not the node facing `_this`, a `SetNeighborWhenFlip` call on `x` makes no node its own neighbor if none was before |
| NodeGraph2DProperties.SplitKeepsNoSelfListing | Assets/BisterllarFlip/2D/NodeGraph2D.cs:25-38 | a split makes no node its own neighbor if none was before |
| NodeGraph2DProperties.FlipKeepsNoSelfListing | Assets/BisterllarFlip/2D/NodeGraph2D.cs:50-64 | a flip makes no node its own neighbor if none was before |
| VoronoiGraph2D.Contribution | Assets/BisterllarFlip/2D/NodeGraph2D.cs:131-133 | one neighbor adds at most three copies of the segment `c0`-`c1` to a cell, and adds it exactly when the test for that vertex holds; a non-vertex gets nothing |
| VoronoiGraph2D.AddSite | Assets/BisterllarFlip/2D/NodeGraph2D.cs:123-125 | the keys gain the vertex; a new cell is centered on its key and empty; existing cells are untouched |
| VoronoiGraph2D.AttachSegment | Assets/BisterllarFlip/2D/NodeGraph2D.cs:131 | a segment is appended only to a cell that exists; no key is added or removed; no other cell changes |
| VoronoiGraph2D.AttachDual | Assets/BisterllarFlip/2D/NodeGraph2D.cs:127-133 | the keys stay, and every cell gains exactly its `Contribution` for this neighbor |
| VoronoiGraph2D.VisitNode | Assets/BisterllarFlip/2D/NodeGraph2D.cs:120-135 | one outer iteration turns the cells of the nodes visited so far into the cells of those nodes plus `d` |
| VoronoiGraph2D.VoronoiGraph2D.constructor | Assets/BisterllarFlip/2D/NodeGraph2D.cs:117-136 | the keys are the vertices of the given triangles; each cell is centered on its key and holds exactly the segments `CellSegments` lists, in order |
| VoronoiGraph2D.SitesAreVertices | Assets/BisterllarFlip/2D/NodeGraph2D.cs:120-125 | a point is a key exactly when it is a vertex of one of the given triangles |
| VoronoiGraph2D.CellSegmentsOffSite | Assets/BisterllarFlip/2D/NodeGraph2D.cs:131-133 | a point that is a vertex of no triangle receives no segment |
| VoronoiGraph2D.DualSegmentsOffVertex | Assets/BisterllarFlip/2D/NodeGraph2D.cs:126-134 | a triangle that lacks the point adds nothing to its cell |
| VoronoiGraph2D.DualSegmentsSpec | Assets/BisterllarFlip/2D/NodeGraph2D.cs:126-134 | the segments one node adds to a cell are exactly the segments from its circumcenter to a neighbor's circumcenter that pass the test for that vertex |
| VoronoiGraph2D.CellSegmentsSpec | Assets/BisterllarFlip/2D/NodeGraph2D.cs:120-135 | a segment is in a cell exactly when it joins a given triangle's circumcenter to one of its neighbors' circumcenters and passes the test for the cell's vertex |
| VoronoiGraph2D.CellSegmentsIncident | Assets/BisterllarFlip/2D/NodeGraph2D.cs:126-133 | every segment of a cell starts at the circumcenter of a triangle that has the cell's site as a vertex |
| VoronoiGraph2D.CellsOfVertices | Assets/BisterllarFlip/2D/NodeGraph2D.cs:117-136 | after construction: exactly the triangle vertices are keys, one cell per distinct vertex, each centered on its key; no segment belongs to a point that is not a key |

## Left out

- **Floating-point geometry.**
  - `float2`/`Vector2` coordinates are exact reals.
  - `Triangle.OnEdge`, `Triangle.Includes(p, false)` and `Triangle.circumscribedCenter`
    are defined in files outside this model. They are parameters: the three
    functions of a `TriangleOracle`.
  - `Triangle.ContainsSegment` is also defined outside this model. It is modelled as:
    the segment equals one of the triangle's three edges, as an unordered pair.
- **The orthogonality test** `abs(dot(u, v)) < 1e-5` is evaluated exactly on reals,
  with the source's constant. Float rounding of the dot product is not modelled.
- **Object identity.**
  - Delaunay nodes are indices into an arena rather than heap objects.
  - Voronoi cells are values in a map. In the source each key owns its own
    `VoronoiGraphNode2D`, so no aliasing is lost.
  - The input array `DN[] dns` is read only. It is modelled as a sequence of indices,
    and a null entry in it is not modelled.
- **The exception.** `ArgumentOutOfRangeException` from `Split` is the outcome
  `Fail(PointOnEdge)`.
- **Unmodelled code.**
  - `VoronoiGraphNode2D.Meshilify` builds a Unity `Mesh`, using a float cross-product
    sign to choose the winding.
  - The overload `GetFacingNode(float2, float2)` only builds the segment.
  - The `DelaunayGraphNode2D(Segment, Vector2)` constructor only forwards; `Flip`'s
    use of it is modelled directly.
  - The builder that drives `Split`/`Flip`, the empty-circumcircle property, the 3D
    variant and the demo drawer are not part of this model.
- SplitChildren, SplitSiblings, SplitWiredNeighbors, SplitRewiresOuter, SplitFrame and
  SplitSymmetric assume the split node does not list itself as a neighbor. A node's
  neighbors are other triangles.
- SplitRewiresOuter and SplitSymmetric assume the three vertices and `p` are pairwise
  distinct. Without that, one outer neighbor can share several edges with the parent.
- FlipSiblingsFirst assumes the two ends of `prvEdge`, `pointThis` and `pointPair`
  are pairwise distinct.
- FlipStep, WhenFlipKeepsHead and FlipNeighborBound state list lengths and first
  entries only. FlipWiredNeighbors and FlipRewiresOuter give the full lists under
  their assumptions.
- FlipWiredNeighbors, FlipRewiresOuter, FlipSymmetric, FlipFrame and FlipRetiredKeepLists assume
  `this` and `pair` do not list themselves, `pair` lacks the edges `(prvEdge.a, pointThis)` and
  `(prvEdge.b, pointThis)`, and `this` lacks `(prvEdge.a, pointPair)` and
  `(prvEdge.b, pointPair)`. The edge assumptions hold when `this` is `(prvEdge.a, prvEdge.b, pointThis)`
  and `pair` is `(prvEdge.a, prvEdge.b, pointPair)`, as in a flip. FlipRewiresOuter
  and FlipSymmetric also assume the four points are pairwise distinct.
- FlipKeepsNoSelfListing makes the same edge assumptions as FlipWiredNeighbors.
  SplitKeepsNoSelfListing and FlipKeepsNoSelfListing start from an arena in which
  no node lists itself.
- FlipRewiresOuter says nothing about a node that faces `this` (or `pair`) across both
  of its outer edges; such a node would have the same three vertices as `this`.
  SplitSymmetric excludes the same case for the edges `bc` and `ca`, and
  FlipSymmetric for the `prvEdge.b` edges.
- SetNeighborsAgreesWithWhenFlip holds only when at most one neighbor of `i` lies
  across the edge. When several do, `SetNeighbors` rewires every one of them and
  `SetNeighborWhenFlip` only the first.
- SetNeighborsEffect assumes `tgt` is not `i` and is not already a neighbor of `i`.
  This always holds in `Split`, where `tgt` is a fresh child.
