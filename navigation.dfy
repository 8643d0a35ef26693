/**
 * The navigation graph of a map: the rectangle leaves of the entity tree are
 * the cells, two cells are neighbours when their boxes overlap, a path query
 * labels the cells with their distance to a goal (a multi-source Dijkstra
 * loop tagging cells with the number of the query), and a waypoint query
 * picks where an entity standing in a labelled cell should head next.
 *
 * Cells are identified by the id the map loader gives them (their position
 * among the rectangles in tree order); the per-cell fields of the source
 * (`neighbors`, `overlaps`, `path_id`, `path_length`, `path_overlap`,
 * `priority_in_queue`) are arrays indexed by that id.
 */
module Navigation {
  import opened Wrappers
  import opened Geometry
  import T = SpatialTree
  import C = Containers

  // ---------------------------------------------------------------------
  // Overlaps and waypoints
  // ---------------------------------------------------------------------

  /** The overlap object two neighbouring cells share: the common region and its centre. */
  datatype Overlap = Overlap(left: real, right: real, bottom: real, top: real, center: Vec2)

  function Max(a: real, b: real): real { if a >= b then a else b }

  function Min(a: real, b: real): real { if a <= b then a else b }

  /** The region of an overlap, as a box. */
  function Region(o: Overlap): Box {
    Box(o.left, o.right, o.bottom, o.top)
  }

  /** `initializePathNodes`' overlap of two cells: the component-wise max/min and the midpoints. */
  function MakeOverlap(a: Box, b: Box): Overlap {
    var left, right := Max(a.left, b.left), Min(a.right, b.right);
    var bottom, top := Max(a.bottom, b.bottom), Min(a.top, b.top);
    Overlap(left, right, bottom, top, Vec2((left + right) / 2.0, (bottom + top) / 2.0))
  }

  /** Both ends of a connection get the same overlap, whichever of them built it. */
  lemma MakeOverlapSymmetric(a: Box, b: Box)
    ensures MakeOverlap(a, b) == MakeOverlap(b, a)
  {
  }

  /** The overlap region is exactly the intersection of the two cells. */
  lemma InsideOverlapIff(p: Vec2, a: Box, b: Box)
    ensures Inside(p, Region(MakeOverlap(a, b))) <==> Inside(p, a) && Inside(p, b)
  {
  }

  /** Two proper cells that overlap have a proper overlap, whose centre lies in both. */
  lemma OverlapIsProper(a: Box, b: Box)
    requires Proper(a) && Proper(b) && Overlaps(a, b)
    ensures Proper(Region(MakeOverlap(a, b)))
    ensures Inside(MakeOverlap(a, b).center, a) && Inside(MakeOverlap(a, b).center, b)
  {
    var o := MakeOverlap(a, b);
    assert o.left < o.right && o.bottom < o.top;
    InsideOverlapIff(o.center, a, b);
  }

  /**
   * One axis of the waypoint: when the overlap is wider than two margins,
   * the start coordinate clamped into the overlap shrunk by a margin on
   * each side; otherwise the centre.
   */
  function AxisTarget(p: real, low: real, high: real, center: real, margin: real): real {
    if high - low > margin * 2.0 then Min(Max(p, low + margin), high - margin) else center
  }

  /** The clamp-or-centre target stays in `[low, high]`, keeping a margin whenever it clamps. */
  lemma AxisTargetWithin(p: real, low: real, high: real, margin: real)
    requires 0.0 <= margin && low <= high
    ensures var r := AxisTarget(p, low, high, (low + high) / 2.0, margin);
      low <= r <= high &&
      (high - low > margin * 2.0 ==> low + margin <= r <= high - margin) &&
      (high - low > margin * 2.0 && low + margin <= p <= high - margin ==> r == p)
  {
  }

  /** The waypoint towards an overlap: margin `2 radius` on each axis. */
  function Waypoint(o: Overlap, start: Vec2, radius: real): Vec2 {
    var margin := radius * 2.0;
    Vec2(AxisTarget(start.x, o.left, o.right, o.center.x, margin),
      AxisTarget(start.y, o.bottom, o.top, o.center.y, margin))
  }

  /**
   * For a non-negative radius the waypoint towards the overlap of two
   * overlapping cells lies in both cells.
   */
  lemma WaypointInsideBoth(a: Box, b: Box, start: Vec2, radius: real)
    requires Proper(a) && Proper(b) && Overlaps(a, b) && radius >= 0.0
    ensures Inside(Waypoint(MakeOverlap(a, b), start, radius), Region(MakeOverlap(a, b)))
    ensures Inside(Waypoint(MakeOverlap(a, b), start, radius), a)
    ensures Inside(Waypoint(MakeOverlap(a, b), start, radius), b)
  {
    var o := MakeOverlap(a, b);
    OverlapIsProper(a, b);
    AxisTargetWithin(start.x, o.left, o.right, radius * 2.0);
    AxisTargetWithin(start.y, o.bottom, o.top, radius * 2.0);
    InsideOverlapIff(Waypoint(o, start, radius), a, b);
  }

  // ---------------------------------------------------------------------
  // Cells
  // ---------------------------------------------------------------------

  /** The navigation cells of the entity tree, in tree order: the no-box `collectPathNode` walk. */
  function Cells(root: T.Node): seq<T.Node> {
    T.Collected(T.CollectPathNode, T.Leaves(root))
  }

  /** The rectangles carry the ids 0, 1, … in tree order, as the map loader numbers them. */
  ghost predicate CellsNumbered(root: T.Node) {
    T.CellIds(T.Leaves(root)) == T.Consecutive(0, |T.CellIds(T.Leaves(root))|)
  }

  /** A tree the loader builds with the counter starting at 0 is numbered, with as many cells as ids used. */
  lemma BuiltTreeIsNumbered(j: T.Json, vertices: seq<Vec2>)
    requires T.NodeFromJson(j, vertices, 0).Some?
    ensures var (root, count) := T.NodeFromJson(j, vertices, 0).value;
      CellsNumbered(root) && |Cells(root)| == count
  {
    var (root, count) := T.NodeFromJson(j, vertices, 0).value;
    T.CellIdsConsecutive(j, vertices, 0);
    CellIdsOfCollected(T.Leaves(root));
  }

  /** The ids of a node sequence are the ids of its collected cells, position by position. */
  lemma {:induction false} CellIdsOfCollected(s: seq<T.Node>)
    ensures |T.CellIds(s)| == |T.Collected(T.CollectPathNode, s)|
    ensures forall k :: 0 <= k < |T.CellIds(s)| ==>
      T.Collected(T.CollectPathNode, s)[k].Rectangle? &&
      T.Collected(T.CollectPathNode, s)[k].cell == T.CellIds(s)[k]
  {
    if s != [] {
      CellIdsOfCollected(s[1..]);
    }
  }

  /** In a numbered tree, cell `k` carries the id `k`. */
  lemma CellsAreNumbered(root: T.Node)
    requires CellsNumbered(root)
    ensures |Cells(root)| == |T.CellIds(T.Leaves(root))|
    ensures forall k :: 0 <= k < |Cells(root)| ==> Cells(root)[k].Rectangle? && Cells(root)[k].cell == k
  {
    CellIdsOfCollected(T.Leaves(root));
  }

  /** In a numbered tree, a rectangle leaf is the cell its id names. */
  lemma CellOfLeaf(root: T.Node, l: T.Node)
    requires CellsNumbered(root) && l in T.Leaves(root) && l.Rectangle?
    ensures l.cell < |Cells(root)| && Cells(root)[l.cell] == l
  {
    CellsAreNumbered(root);
    T.CollectedMembers(T.CollectPathNode, T.Leaves(root));
    var k :| 0 <= k < |Cells(root)| && Cells(root)[k] == l;
  }

  /** The cells a `collectPathNode` walk with box `q` collects, in visiting order. */
  function Query(root: T.Node, q: Box): (r: seq<T.Node>)
    ensures forall k :: 0 <= k < |r| ==> r[k].Rectangle?
  {
    CollectedAreCells(T.Traverse(root, Some(q)));
    T.Collected(T.CollectPathNode, T.Traverse(root, Some(q)))
  }

  lemma {:induction false} CollectedAreCells(s: seq<T.Node>)
    ensures forall k :: 0 <= k < |T.Collected(T.CollectPathNode, s)| ==> T.Collected(T.CollectPathNode, s)[k].Rectangle?
  {
    if s != [] {
      CollectedAreCells(s[1..]);
    }
  }

  /** Whatever the box, a query only returns cells of the tree, each the cell its id names. */
  lemma QueriedCell(root: T.Node, q: Box, l: T.Node)
    requires CellsNumbered(root) && l in Query(root, q)
    ensures l.Rectangle? && l.cell < |Cells(root)| && Cells(root)[l.cell] == l
  {
    T.CollectedMembers(T.CollectPathNode, T.Traverse(root, Some(q)));
    T.TraverseVisitsLeaves(root, Some(q));
    CellOfLeaf(root, l);
  }

  /** On a well-formed tree, a query returns exactly the cells that strictly overlap the box. */
  lemma QueryIsOverlappingCells(root: T.Node, q: Box, k: nat)
    requires CellsNumbered(root) && T.WellFormed(root) && root.Branch? && k < |Cells(root)|
    ensures Cells(root)[k] in Query(root, q) <==> Overlaps(Cells(root)[k].box, q)
  {
    T.QueryIsOverlappingLeaves(root, q);
    T.CollectedMembers(T.CollectPathNode, T.Traverse(root, Some(q)));
    T.CollectedMembers(T.CollectPathNode, T.Leaves(root));
    CellsAreNumbered(root);
  }

  // ---------------------------------------------------------------------
  // Building the graph
  // ---------------------------------------------------------------------

  /** The cells the query around cell `a`'s own box returns. */
  function Around(root: T.Node, a: nat): seq<T.Node>
    requires a < |Cells(root)|
  {
    Query(root, Cells(root)[a].box)
  }

  /**
   * Cell `b` has been met while processing cell `a`, once cells `0 .. i-1`
   * have been processed and the first `j` results of cell `i`'s query.
   */
  ghost predicate Met(root: T.Node, i: nat, j: nat, a: nat, b: nat)
    requires a < |Cells(root)| && b < |Cells(root)|
  {
    (a < i && Cells(root)[b] in Around(root, a)) ||
    (a == i && j <= |Around(root, a)| && Cells(root)[b] in Around(root, a)[..j])
  }

  /** Whether the build has connected `a` and `b` by that point. */
  ghost predicate Seen(root: T.Node, i: nat, j: nat, a: nat, b: nat)
    requires a < |Cells(root)| && b < |Cells(root)|
  {
    a != b && (Met(root, i, j, a, b) || Met(root, i, j, b, a))
  }

  /** The neighbour relation the build produces: distinct cells either of whose queries returns the other. */
  ghost predicate Linked(root: T.Node, a: nat, b: nat)
    requires a < |Cells(root)| && b < |Cells(root)|
  {
    a != b && (Cells(root)[b] in Around(root, a) || Cells(root)[a] in Around(root, b))
  }

  /** One list per cell, with the overlap list as long as the neighbour list. */
  ghost predicate ListsShaped(n: nat, nb: seq<seq<nat>>, ov: seq<seq<Overlap>>)
  {
    |nb| == n && |ov| == n && forall a :: 0 <= a < n ==> |ov[a]| == |nb[a]|
  }

  /** Entry `k` of a cell's lists is a cell and the overlap of the two cells' boxes. */
  ghost predicate ListsAligned(root: T.Node, nb: seq<seq<nat>>, ov: seq<seq<Overlap>>)
    requires ListsShaped(|Cells(root)|, nb, ov)
  {
    forall a, k :: 0 <= a < |nb| && 0 <= k < |nb[a]| ==>
      nb[a][k] < |Cells(root)| && ov[a][k] == MakeOverlap(Cells(root)[a].box, Cells(root)[nb[a][k]].box)
  }

  /** No cell appears twice in a neighbour list. */
  ghost predicate ListsDistinct(nb: seq<seq<nat>>)
  {
    forall a, k, k' :: 0 <= a < |nb| && 0 <= k < k' < |nb[a]| ==> nb[a][k] != nb[a][k']
  }

  /** The lists hold exactly the pairs seen so far. */
  ghost predicate ListsHoldSeen(root: T.Node, nb: seq<seq<nat>>, i: nat, j: nat)
    requires |nb| == |Cells(root)|
  {
    forall a, b :: 0 <= a < |nb| && 0 <= b < |nb| ==> (b in nb[a] <==> Seen(root, i, j, a, b))
  }

  /**
   * The state of the neighbour lists at a point of the build: one list per
   * cell, holding ids of cells, without repetition, with the overlaps aligned
   * index by index, and holding exactly the cells seen so far.
   */
  ghost predicate NeighborLists(root: T.Node, nb: seq<seq<nat>>, ov: seq<seq<Overlap>>, i: nat, j: nat)
  {
    ListsShaped(|Cells(root)|, nb, ov) && ListsAligned(root, nb, ov) && ListsDistinct(nb) &&
    ListsHoldSeen(root, nb, i, j)
  }

  /** Appending a cell and its overlap to one cell's lists keeps them aligned. */
  lemma AppendKeepsAligned(root: T.Node, nb: seq<seq<nat>>, ov: seq<seq<Overlap>>, a: nat, o: nat)
    requires ListsShaped(|Cells(root)|, nb, ov) && ListsAligned(root, nb, ov)
    requires a < |Cells(root)| && o < |Cells(root)|
    ensures var ovl := MakeOverlap(Cells(root)[a].box, Cells(root)[o].box);
      ListsShaped(|Cells(root)|, nb[a := nb[a] + [o]], ov[a := ov[a] + [ovl]]) &&
      ListsAligned(root, nb[a := nb[a] + [o]], ov[a := ov[a] + [ovl]])
  {
  }

  /** Appending a cell that is not in a list keeps the lists free of repetition. */
  lemma AppendKeepsDistinct(nb: seq<seq<nat>>, a: nat, o: nat)
    requires ListsDistinct(nb) && a < |nb| && o !in nb[a]
    ensures ListsDistinct(nb[a := nb[a] + [o]])
  {
    var nb' := nb[a := nb[a] + [o]];
    forall c, k, k' | 0 <= c < |nb'| && 0 <= k < k' < |nb'[c]|
      ensures nb'[c][k] != nb'[c][k']
    {
      if c == a && k' == |nb[a]| {
        assert nb[a][k] in nb[a];
      }
    }
  }

  /** Before anything is processed, every list is empty and nothing has been seen. */
  lemma NeighborListsStart(root: T.Node, nb: seq<seq<nat>>, ov: seq<seq<Overlap>>)
    requires |nb| == |ov| == |Cells(root)|
    requires forall a :: 0 <= a < |nb| ==> nb[a] == [] && ov[a] == []
    ensures NeighborLists(root, nb, ov, 0, 0)
  {
  }

  /** Moving on to the next cell once the current one's query results are all processed. */
  lemma NeighborListsNext(root: T.Node, nb: seq<seq<nat>>, ov: seq<seq<Overlap>>, i: nat)
    requires i < |Cells(root)|
    requires NeighborLists(root, nb, ov, i, |Around(root, i)|)
    ensures NeighborLists(root, nb, ov, i + 1, 0)
  {
    var n := |Cells(root)|;
    assert Around(root, i)[..|Around(root, i)|] == Around(root, i);
    forall a, b | 0 <= a < n && 0 <= b < n
      ensures Seen(root, i, |Around(root, i)|, a, b) <==> Seen(root, i + 1, 0, a, b)
    {
    }
  }

  /** Meeting query result `j` of cell `i` extends what has been seen by exactly that pair. */
  lemma MetStep(root: T.Node, i: nat, j: nat, a: nat, b: nat)
    requires i < |Cells(root)| && j < |Around(root, i)|
    requires a < |Cells(root)| && b < |Cells(root)|
    requires CellsNumbered(root)
    ensures Met(root, i, j + 1, a, b) <==> Met(root, i, j, a, b) || (a == i && b == Around(root, i)[j].cell)
  {
    var q := Around(root, i);
    assert q[..j + 1] == q[..j] + [q[j]];
    assert q[j] in q;
    QueriedCell(root, Cells(root)[i].box, q[j]);
    CellsAreNumbered(root);
  }

  /**
   * One step of the inner loop of `initializePathNodes`: the current cell `i`
   * meets result `j` of its query. When that is another cell not yet
   * connected, both get each other and the shared overlap at the end of
   * their lists; otherwise nothing changes.
   */
  lemma ConnectStep(root: T.Node, nb: seq<seq<nat>>, ov: seq<seq<Overlap>>, i: nat, j: nat)
    requires CellsNumbered(root) && i < |Cells(root)| && j < |Around(root, i)|
    requires NeighborLists(root, nb, ov, i, j)
    ensures var o := Around(root, i)[j].cell;
      o < |Cells(root)| &&
      (i != o && o !in nb[i] ==>
        var ovl := MakeOverlap(Cells(root)[i].box, Cells(root)[o].box);
        NeighborLists(root, nb[i := nb[i] + [o]][o := nb[o] + [i]],
          ov[i := ov[i] + [ovl]][o := ov[o] + [ovl]], i, j + 1)) &&
      (i == o || o in nb[i] ==> NeighborLists(root, nb, ov, i, j + 1))
  {
    var n := |Cells(root)|;
    var q := Around(root, i);
    assert q[j] in q;
    QueriedCell(root, Cells(root)[i].box, q[j]);
    var o := q[j].cell;
    forall a, b | 0 <= a < n && 0 <= b < n
      ensures Seen(root, i, j + 1, a, b) <==>
        Seen(root, i, j, a, b) || (i != o && ((a == i && b == o) || (a == o && b == i)))
    {
      MetStep(root, i, j, a, b);
      MetStep(root, i, j, b, a);
    }
    if i != o && o !in nb[i] {
      MakeOverlapSymmetric(Cells(root)[i].box, Cells(root)[o].box);
      assert i !in nb[o];
      ConnectKeepsLists(root, nb, ov, i, j, o);
    }
  }

  /** The list update of `ConnectStep` when a new connection is made. */
  lemma ConnectKeepsLists(root: T.Node, nb: seq<seq<nat>>, ov: seq<seq<Overlap>>, i: nat, j: nat, o: nat)
    requires CellsNumbered(root) && i < |Cells(root)| && o < |Cells(root)| && i != o
    requires NeighborLists(root, nb, ov, i, j)
    requires o !in nb[i] && i !in nb[o]
    requires forall a, b :: 0 <= a < |Cells(root)| && 0 <= b < |Cells(root)| ==>
      (Seen(root, i, j + 1, a, b) <==> Seen(root, i, j, a, b) || (a == i && b == o) || (a == o && b == i))
    ensures var ovl := MakeOverlap(Cells(root)[i].box, Cells(root)[o].box);
      NeighborLists(root, nb[i := nb[i] + [o]][o := nb[o] + [i]],
        ov[i := ov[i] + [ovl]][o := ov[o] + [ovl]], i, j + 1)
  {
    var ovl := MakeOverlap(Cells(root)[i].box, Cells(root)[o].box);
    MakeOverlapSymmetric(Cells(root)[i].box, Cells(root)[o].box);
    var nb1, ov1 := nb[i := nb[i] + [o]], ov[i := ov[i] + [ovl]];
    AppendKeepsAligned(root, nb, ov, i, o);
    AppendKeepsDistinct(nb, i, o);
    assert nb1[o] == nb[o] && ov1[o] == ov[o];
    AppendKeepsAligned(root, nb1, ov1, o, i);
    AppendKeepsDistinct(nb1, o, i);
    ConnectHoldsSeen(root, nb, i, j, o);
  }

  /** The `Seen` part of `ConnectKeepsLists`. */
  lemma ConnectHoldsSeen(root: T.Node, nb: seq<seq<nat>>, i: nat, j: nat, o: nat)
    requires i < |Cells(root)| && o < |Cells(root)| && i != o && |nb| == |Cells(root)|
    requires ListsHoldSeen(root, nb, i, j)
    requires forall a, b :: 0 <= a < |Cells(root)| && 0 <= b < |Cells(root)| ==>
      (Seen(root, i, j + 1, a, b) <==> Seen(root, i, j, a, b) || (a == i && b == o) || (a == o && b == i))
    ensures ListsHoldSeen(root, nb[i := nb[i] + [o]][o := nb[o] + [i]], i, j + 1)
  {
    var nb' := nb[i := nb[i] + [o]][o := nb[o] + [i]];
    forall a, b | 0 <= a < |nb'| && 0 <= b < |nb'|
      ensures b in nb'[a] <==> Seen(root, i, j + 1, a, b)
    {
      if a == i {
        assert nb'[a] == nb[a] + [o];
      } else if a == o {
        assert nb'[a] == nb[a] + [i];
      } else {
        assert nb'[a] == nb[a];
      }
    }
  }

  /** `entities_root.forEach(bbox, 'collectPathNode', [])`: the cells the walk collects, into a new array. */
  method CollectCells(root: T.Node, q: Option<Box>) returns (cells: C.PermanentArray<T.Node>)
    requires T.HandledBelow(T.CollectPathNode, root)
    ensures fresh(cells.Repr) && cells.Valid()
    ensures cells.Contents == T.Collected(T.CollectPathNode, T.Traverse(root, q))
  {
    cells := new C.PermanentArray<T.Node>();
    T.ForEach(root, q, T.CollectPathNode, cells);
  }

  /**
   * `initializePathNodes`: walk all cells; for each, query the tree with the
   * cell's own box and connect it to every other returned cell it is not yet
   * connected to, giving both the same overlap object.
   */
  method InitializePathNodes(root: T.Node) returns (neighbors: array<seq<nat>>, overlaps: array<seq<Overlap>>)
    requires CellsNumbered(root) && T.HandledBelow(T.CollectPathNode, root)
    ensures fresh(neighbors) && fresh(overlaps)
    ensures NeighborLists(root, neighbors[..], overlaps[..], |Cells(root)|, 0)
  {
    var allNodes := CollectCells(root, None);
    T.TraverseAllIsLeaves(root);
    CellsAreNumbered(root);
    var n := allNodes.count;
    neighbors := new seq<nat>[n](_ => []);
    overlaps := new seq<Overlap>[n](_ => []);
    NeighborListsStart(root, neighbors[..], overlaps[..]);
    var all := allNodes.slots;
    ghost var cells := Cells(root);
    assert n == |cells| <= all.Length;
    assert forall k :: 0 <= k < n ==> all[k] == Some(cells[k]) && cells[k].Rectangle? && cells[k].cell == k;
    var i := 0;
    while i < n
      invariant n == |cells| <= all.Length && cells == Cells(root)
      invariant forall k :: 0 <= k < n ==> all[k] == Some(cells[k]) && cells[k].Rectangle? && cells[k].cell == k
      invariant neighbors.Length == n && overlaps.Length == n
      invariant 0 <= i <= n
      invariant NeighborLists(root, neighbors[..], overlaps[..], i, 0)
      modifies neighbors, overlaps
    {
      var current := all[i].value;
      ConnectCell(root, current, neighbors, overlaps);
      NeighborListsNext(root, neighbors[..], overlaps[..], i);
      i := i + 1;
    }
  }

  /** The body of the outer loop of `initializePathNodes` for cell `current`. */
  method ConnectCell(root: T.Node, current: T.Node, neighbors: array<seq<nat>>, overlaps: array<seq<Overlap>>)
    requires CellsNumbered(root) && T.HandledBelow(T.CollectPathNode, root)
    requires current.Rectangle? && current.cell < |Cells(root)| && current == Cells(root)[current.cell]
    requires NeighborLists(root, neighbors[..], overlaps[..], current.cell, 0)
    modifies neighbors, overlaps
    ensures NeighborLists(root, neighbors[..], overlaps[..], current.cell, |Around(root, current.cell)|)
  {
    ghost var i := current.cell;
    var overlapping := CollectCells(root, Some(current.box));
    var j := 0;
    while j < overlapping.count
      invariant overlapping.Valid() && overlapping.Contents == Around(root, i)
      invariant 0 <= j <= overlapping.count
      invariant NeighborLists(root, neighbors[..], overlaps[..], i, j)
      modifies neighbors, overlaps
    {
      var other := overlapping.slots[j].value;
      assert other == Around(root, i)[j];
      ConnectPair(root, current, other, neighbors, overlaps, j);
      j := j + 1;
    }
  }

  /** The body of the inner loop of `initializePathNodes`: meet query result `j`, `other`. */
  method ConnectPair(root: T.Node, current: T.Node, other: T.Node,
                     neighbors: array<seq<nat>>, overlaps: array<seq<Overlap>>, ghost j: nat)
    requires CellsNumbered(root)
    requires current.Rectangle? && current.cell < |Cells(root)| && current == Cells(root)[current.cell]
    requires j < |Around(root, current.cell)| && other == Around(root, current.cell)[j]
    requires NeighborLists(root, neighbors[..], overlaps[..], current.cell, j)
    modifies neighbors, overlaps
    ensures NeighborLists(root, neighbors[..], overlaps[..], current.cell, j + 1)
  {
    ConnectStep(root, neighbors[..], overlaps[..], current.cell, j);
    assert other in Around(root, current.cell);
    QueriedCell(root, current.box, other);
    if current.cell != other.cell && !(other.cell in neighbors[current.cell]) {
      var overlap := MakeOverlap(current.box, other.box);
      Connect(neighbors, overlaps, current.cell, other.cell, overlap);
    }
  }

  /** Give cells `a` and `b` each other as neighbours, with the shared overlap. */
  method Connect(neighbors: array<seq<nat>>, overlaps: array<seq<Overlap>>, a: nat, b: nat, overlap: Overlap)
    requires a < neighbors.Length == overlaps.Length && b < neighbors.Length && a != b
    modifies neighbors, overlaps
    ensures neighbors[..] == old(neighbors[..])[a := old(neighbors[a]) + [b]][b := old(neighbors[b]) + [a]]
    ensures overlaps[..] == old(overlaps[..])[a := old(overlaps[a]) + [overlap]][b := old(overlaps[b]) + [overlap]]
  {
    neighbors[a] := neighbors[a] + [b];
    overlaps[a] := overlaps[a] + [overlap];
    neighbors[b] := neighbors[b] + [a];
    overlaps[b] := overlaps[b] + [overlap];
  }

  /**
   * What `initializePathNodes` leaves behind: the neighbour relation is
   * irreflexive and symmetric, it is the `Linked` relation, and (from the
   * invariant) the lists are free of repetition with aligned overlaps.
   */
  lemma NeighborRelation(root: T.Node, nb: seq<seq<nat>>, ov: seq<seq<Overlap>>)
    requires NeighborLists(root, nb, ov, |Cells(root)|, 0)
    ensures forall a :: 0 <= a < |nb| ==> a !in nb[a]
    ensures forall a, b :: 0 <= a < |nb| && 0 <= b < |nb| ==> (b in nb[a] <==> a in nb[b])
    ensures forall a, b :: 0 <= a < |nb| && 0 <= b < |nb| ==> (b in nb[a] <==> Linked(root, a, b))
  {
    var n := |Cells(root)|;
    forall a, b | 0 <= a < n && 0 <= b < n
      ensures Seen(root, n, 0, a, b) <==> Linked(root, a, b)
    {
    }
  }

  /** On a well-formed tree, two cells are neighbours exactly when they are distinct and overlap. */
  lemma NeighborsOverlap(root: T.Node, nb: seq<seq<nat>>, ov: seq<seq<Overlap>>, a: nat, b: nat)
    requires NeighborLists(root, nb, ov, |Cells(root)|, 0) && CellsNumbered(root)
    requires T.WellFormed(root) && root.Branch? && a < |nb| && b < |nb|
    ensures b in nb[a] <==> a != b && Overlaps(Cells(root)[a].box, Cells(root)[b].box)
  {
    NeighborRelation(root, nb, ov);
    QueryIsOverlappingCells(root, Cells(root)[a].box, b);
    QueryIsOverlappingCells(root, Cells(root)[b].box, a);
    OverlapsSymmetric(Cells(root)[a].box, Cells(root)[b].box);
  }

  // ---------------------------------------------------------------------
  // Path labels
  // ---------------------------------------------------------------------

  /** A cell's `path_id`, `path_length` and `path_overlap`. */
  datatype Label = Label(id: nat, length: real, via: Option<Overlap>)

  /**
   * The length a route to a neighbour through overlap `o` gets: the current
   * cell's length plus the distance from where the route entered the current
   * cell (its overlap's centre, or the goal for a start cell) to `o`'s centre.
   */
  function CandidateLength(g: Geometry, goal: Vec2, len: real, via: Option<Overlap>, o: Overlap): (r: real)
    ensures NonNegativeLength(g) ==> r >= len
  {
    match via
    case Some(v) => len + Distance(g, v.center, o.center)
    case None => len + Distance(g, goal, o.center)
  }

  /**
   * Cell `c` was reached through overlap `o` from a neighbour `p` carrying
   * the current query's id and a length no greater than `c`'s.
   */
  ghost predicate Reached(cells: seq<T.Node>, nb: seq<seq<nat>>, lab: seq<Label>, id: nat, c: nat, o: Overlap)
  {
    exists p ::
      0 <= p < |cells| && p < |nb| && p < |lab| && c < |lab| && c < |cells| &&
      lab[p].id == id && c in nb[p] && lab[p].length <= lab[c].length &&
      o == MakeOverlap(cells[p].box, cells[c].box)
  }

  /**
   * The labels are consistent: no cell carries an id beyond the current one,
   * lengths are non-negative, a labelled cell without an overlap has length
   * 0, and a labelled cell with an overlap was reached through it.
   */
  ghost predicate Labelled(cells: seq<T.Node>, nb: seq<seq<nat>>, lab: seq<Label>, id: nat)
  {
    var n := |cells|;
    |nb| == n && |lab| == n &&
    (forall c :: 0 <= c < n ==> lab[c].id <= id && lab[c].length >= 0.0) &&
    (forall c :: 0 <= c < n && lab[c].id == id && lab[c].via.None? ==> lab[c].length == 0.0) &&
    (forall c :: 0 <= c < n && lab[c].id == id && lab[c].via.Some? ==> Reached(cells, nb, lab, id, c, lab[c].via.value))
  }

  /** With every cell at id 0, length 0 and no overlap, the labels are consistent for id 0. */
  lemma LabelledAtStart(cells: seq<T.Node>, nb: seq<seq<nat>>, lab: seq<Label>)
    requires |nb| == |cells| && |lab| == |nb|
    requires forall c :: 0 <= c < |lab| ==> lab[c] == Label(0, 0.0, None)
    ensures Labelled(cells, nb, lab, 0)
  {
  }

  /** A fresh query id leaves every cell unlabelled, so the labels are trivially consistent. */
  lemma LabelledNewQuery(cells: seq<T.Node>, nb: seq<seq<nat>>, lab: seq<Label>, id: nat)
    requires Labelled(cells, nb, lab, id)
    ensures Labelled(cells, nb, lab, id + 1)
    ensures forall c :: 0 <= c < |lab| ==> lab[c].id != id + 1
  {
  }

  /** Labelling a start cell with length 0 and no overlap keeps the labels consistent. */
  lemma SeedKeepsLabels(cells: seq<T.Node>, nb: seq<seq<nat>>, lab: seq<Label>, id: nat, c: nat)
    requires Labelled(cells, nb, lab, id) && c < |lab|
    ensures Labelled(cells, nb, lab[c := Label(id, 0.0, None)], id)
  {
    var n := |cells|;
    var lab' := lab[c := Label(id, 0.0, None)];
    forall x | 0 <= x < n && lab'[x].id == id && lab'[x].via.Some?
      ensures Reached(cells, nb, lab', id, x, lab'[x].via.value)
    {
      var p :| 0 <= p < |cells| && p < |nb| && p < |lab| && x < |lab| && x < |cells| &&
        lab[p].id == id && x in nb[p] && lab[p].length <= lab[x].length &&
        lab[x].via.value == MakeOverlap(cells[p].box, cells[x].box);
      assert lab'[p].id == id && lab'[p].length <= lab'[x].length;
    }
  }

  /**
   * Relabelling neighbour `other` of a labelled cell `cur` through their
   * overlap with a length at least `cur`'s, when `other` was unlabelled or
   * longer, keeps the labels consistent.
   */
  lemma RelaxKeepsLabels(cells: seq<T.Node>, nb: seq<seq<nat>>, lab: seq<Label>, id: nat, cur: nat, other: nat, cand: real)
    requires Labelled(cells, nb, lab, id)
    requires cur < |lab| && other < |lab| && cur != other && other in nb[cur]
    requires lab[cur].id == id && cand >= lab[cur].length
    requires lab[other].id != id || lab[other].length > cand
    ensures Labelled(cells, nb, lab[other := Label(id, cand, Some(MakeOverlap(cells[cur].box, cells[other].box)))], id)
  {
    var n := |cells|;
    var o := MakeOverlap(cells[cur].box, cells[other].box);
    var lab' := lab[other := Label(id, cand, Some(o))];
    forall x | 0 <= x < n && lab'[x].id == id && lab'[x].via.Some?
      ensures Reached(cells, nb, lab', id, x, lab'[x].via.value)
    {
      if x == other {
        assert lab'[cur].id == id && lab'[cur].length <= lab'[x].length;
      } else {
        var p :| 0 <= p < |cells| && p < |nb| && p < |lab| && x < |lab| && x < |cells| &&
          lab[p].id == id && x in nb[p] && lab[p].length <= lab[x].length &&
          lab[x].via.value == MakeOverlap(cells[p].box, cells[x].box);
        assert lab'[p].id == id && lab'[p].length <= lab'[x].length;
      }
    }
  }

  /** Entry `k` of cell `a`'s neighbour list is another cell, reached through the overlap of the two boxes. */
  lemma NeighborEntry(root: T.Node, nb: seq<seq<nat>>, ov: seq<seq<Overlap>>, a: nat, k: nat)
    requires NeighborLists(root, nb, ov, |Cells(root)|, 0)
    requires a < |nb| && k < |nb[a]|
    ensures nb[a][k] != a && nb[a][k] < |Cells(root)|
    ensures k < |ov[a]| && ov[a][k] == MakeOverlap(Cells(root)[a].box, Cells(root)[nb[a][k]].box)
  {
    assert nb[a][k] in nb[a];
  }

  /**
   * The shape of the built graph the path search relies on: one list pair
   * per cell, and entry `k` of cell `a`'s lists is another cell and the
   * overlap of the two boxes.
   */
  ghost predicate Graph(cells: seq<T.Node>, nb: seq<seq<nat>>, ov: seq<seq<Overlap>>)
  {
    ListsShaped(|cells|, nb, ov) &&
    forall a, k :: 0 <= a < |nb| && 0 <= k < |nb[a]| ==>
      nb[a][k] < |cells| && nb[a][k] != a && ov[a][k] == MakeOverlap(cells[a].box, cells[nb[a][k]].box)
  }

  /** The lists `initializePathNodes` builds have that shape. */
  lemma BuiltGraph(root: T.Node, nb: seq<seq<nat>>, ov: seq<seq<Overlap>>)
    requires NeighborLists(root, nb, ov, |Cells(root)|, 0)
    ensures Graph(Cells(root), nb, ov)
  {
    forall a, k | 0 <= a < |nb| && 0 <= k < |nb[a]|
      ensures nb[a][k] < |Cells(root)| && nb[a][k] != a && ov[a][k] == MakeOverlap(Cells(root)[a].box, Cells(root)[nb[a][k]].box)
    {
      NeighborEntry(root, nb, ov, a, k);
    }
  }

  /** Every cell of `s` carries query `id`'s start label: length 0 and no overlap. */
  ghost predicate Seeded(s: seq<T.Node>, lab: seq<Label>, id: nat)
  {
    forall k :: 0 <= k < |s| ==> s[k].Rectangle? && s[k].cell < |lab| && lab[s[k].cell] == Label(id, 0.0, None)
  }

  /** Every cell labelled by query `id` without an overlap is one of `s`. */
  ghost predicate OnlySeeds(s: seq<T.Node>, lab: seq<Label>, id: nat)
  {
    forall c :: 0 <= c < |lab| && lab[c].id == id && lab[c].via.None? ==> c in T.CellIds(s)
  }

  /** The ids of `s`, where every entry is a cell: membership means some entry is that cell. */
  lemma {:induction false} CellIdsOfCells(s: seq<T.Node>, c: nat)
    requires forall k :: 0 <= k < |s| ==> s[k].Rectangle?
    ensures c in T.CellIds(s) <==> exists k :: 0 <= k < |s| && s[k].cell == c
  {
    if s != [] {
      CellIdsOfCells(s[1..], c);
      assert T.CellIds(s) == [s[0].cell] + T.CellIds(s[1..]);
      if c in T.CellIds(s[1..]) {
        var k :| 0 <= k < |s[1..]| && s[1..][k].cell == c;
        assert s[k + 1].cell == c;
      }
      if exists k :: 0 <= k < |s| && s[k].cell == c {
        var k :| 0 <= k < |s| && s[k].cell == c;
        if k > 0 {
          assert s[1..][k - 1].cell == c;
        }
      }
    }
  }

  /** Before any cell carries `id`, the empty sequence holds every start cell. */
  lemma NoSeedsYet(lab: seq<Label>, id: nat)
    requires forall c :: 0 <= c < |lab| ==> lab[c].id != id
    ensures Seeded([], lab, id) && OnlySeeds([], lab, id)
  {
  }

  /** Labelling `s[m-1]` as a start cell extends the start labels from `s[m..]` to `s[m-1..]`. */
  lemma SeedStep(s: seq<T.Node>, m: nat, lab: seq<Label>, id: nat)
    requires 0 < m <= |s| && CellsIn(s, |lab|)
    requires Seeded(s[m..], lab, id) && OnlySeeds(s[m..], lab, id)
    ensures var lab' := lab[s[m - 1].cell := Label(id, 0.0, None)];
      Seeded(s[m - 1..], lab', id) && OnlySeeds(s[m - 1..], lab', id)
  {
    var c := s[m - 1].cell;
    var lab' := lab[c := Label(id, 0.0, None)];
    assert s[m - 1..] == [s[m - 1]] + s[m..];
    assert T.CellIds(s[m - 1..]) == [c] + T.CellIds(s[m..]);
  }

  /**
   * Giving a neighbour `other` a length `cand` no smaller than 0 and an
   * overlap, when it was unlabelled or longer, leaves the start labels alone:
   * a start cell has length 0 and is never strictly longer.
   */
  lemma RelaxKeepsSeeds(s: seq<T.Node>, lab: seq<Label>, id: nat, other: nat, cand: real, o: Overlap)
    requires Seeded(s, lab, id) && OnlySeeds(s, lab, id)
    requires other < |lab| && cand >= 0.0
    requires lab[other].id != id || lab[other].length > cand
    ensures Seeded(s, lab[other := Label(id, cand, Some(o))], id)
    ensures OnlySeeds(s, lab[other := Label(id, cand, Some(o))], id)
  {
  }

  /**
   * One relaxation of `constructPathEndingAt`, on the columns: relabelling
   * entry `k` of labelled cell `cur`'s neighbour list with a length no
   * smaller than `cur`'s keeps the labels and the start labels consistent.
   */
  lemma RelabelStep(cells: seq<T.Node>, nb: seq<seq<nat>>, ov: seq<seq<Overlap>>, lab: seq<Label>, id: nat,
                    s: seq<T.Node>, cur: nat, k: nat, cand: real)
    requires Graph(cells, nb, ov) && Labelled(cells, nb, lab, id)
    requires Seeded(s, lab, id) && OnlySeeds(s, lab, id)
    requires cur < |nb| && k < |nb[cur]| && lab[cur].id == id && cand >= lab[cur].length
    requires lab[nb[cur][k]].id != id || lab[nb[cur][k]].length > cand
    ensures var lab' := lab[nb[cur][k] := Label(id, cand, Some(ov[cur][k]))];
      Labelled(cells, nb, lab', id) && Seeded(s, lab', id) && OnlySeeds(s, lab', id)
  {
    assert nb[cur][k] in nb[cur];
    RelaxKeepsLabels(cells, nb, lab, id, cur, nb[cur][k], cand);
    RelaxKeepsSeeds(s, lab, id, nb[cur][k], cand, ov[cur][k]);
  }

  /** Every entry of `q` indexes the labels and carries `id`. */
  ghost predicate AllLabelled(q: seq<nat>, lab: seq<Label>, id: nat)
  {
    forall k :: 0 <= k < |q| ==> q[k] < |lab| && lab[q[k]].id == id
  }

  /** Inserting a cell that carries `id` anywhere keeps every entry labelled. */
  lemma InsertKeepsLabelled(q: seq<nat>, lab: seq<Label>, id: nat, c: nat, pos: nat)
    requires AllLabelled(q, lab, id) && c < |lab| && lab[c].id == id && pos <= |q|
    ensures AllLabelled(q[..pos] + [c] + q[pos..], lab, id)
  {
    var q' := q[..pos] + [c] + q[pos..];
    forall k | 0 <= k < |q'|
      ensures q'[k] < |lab| && lab[q'[k]].id == id
    {
      if k < pos { assert q'[k] == q[k]; } else if k > pos { assert q'[k] == q[k - 1]; }
    }
  }

  /** Relabelling a cell with the current id keeps every queued entry labelled. */
  lemma RelabelKeepsQueued(q: seq<nat>, lab: seq<Label>, id: nat, c: nat, l: Label)
    requires AllLabelled(q, lab, id) && c < |lab| && l.id == id
    ensures AllLabelled(q, lab[c := l], id)
  {
  }

  // ---------------------------------------------------------------------
  // Choosing the start cell of a move
  // ---------------------------------------------------------------------

  /** Every entry is a cell whose id indexes the label columns. */
  ghost predicate CellsIn(s: seq<T.Node>, n: nat)
  {
    forall k :: 0 <= k < |s| ==> s[k].Rectangle? && s[k].cell < n
  }

  /**
   * `getMoveTargetFromPath`'s choice among the cells containing the start,
   * popped from the back of `s`: a cell labelled by query `id` replaces the
   * choice so far only when it is strictly shorter.
   */
  function PickCell(s: seq<T.Node>, lab: seq<Label>, id: nat): (r: Option<nat>)
    requires CellsIn(s, |lab|)
    ensures r.Some? ==> r.value < |lab|
  {
    if s == [] then None
    else
      var best := PickCell(s[1..], lab, id);
      var c := s[0].cell;
      if lab[c].id == id && (best.None? || lab[best.value].length > lab[c].length) then Some(c) else best
  }

  /**
   * The choice is empty exactly when no entry is labelled; otherwise it is a
   * labelled entry of least length, and every labelled entry popped before
   * it (later in `s`) is strictly longer: the first popped wins ties.
   */
  lemma {:induction false} PickCellChoice(s: seq<T.Node>, lab: seq<Label>, id: nat)
    requires CellsIn(s, |lab|)
    ensures PickCell(s, lab, id).None? <==> forall k :: 0 <= k < |s| ==> lab[s[k].cell].id != id
    ensures var r := PickCell(s, lab, id);
      r.Some? ==> (lab[r.value].id == id &&
        forall k :: 0 <= k < |s| && lab[s[k].cell].id == id ==> lab[r.value].length <= lab[s[k].cell].length)
    ensures var r := PickCell(s, lab, id);
      r.Some? ==> exists k ::
        0 <= k < |s| && s[k].cell == r.value &&
        forall k' :: k < k' < |s| && lab[s[k'].cell].id == id ==> lab[s[k'].cell].length > lab[r.value].length
  {
    if s != [] {
      var rest := s[1..];
      PickCellChoice(rest, lab, id);
      var best := PickCell(rest, lab, id);
      var r := PickCell(s, lab, id);
      forall k | 1 <= k < |s|
        ensures s[k] == rest[k - 1]
      {
      }
      if best.Some? {
        var k0 :| 0 <= k0 < |rest| && rest[k0].cell == best.value &&
          forall k' :: k0 < k' < |rest| && lab[rest[k'].cell].id == id ==> lab[rest[k'].cell].length > lab[best.value].length;
        if r == best {
          assert s[k0 + 1].cell == r.value;
        } else {
          assert s[0].cell == r.value;
        }
      } else if r.Some? {
        assert s[0].cell == r.value;
      }
    }
  }

  /**
   * The move target for the chosen cell: none without a choice, the path's
   * end for a start cell, otherwise the waypoint in the overlap the cell was
   * reached through.
   */
  function MoveTarget(pick: Option<nat>, lab: seq<Label>, goal: Vec2, start: Vec2, radius: real): Option<Vec2>
    requires pick.Some? ==> pick.value < |lab|
  {
    match pick
    case None => None
    case Some(c) =>
      match lab[c].via
      case None => Some(goal)
      case Some(o) => Some(Waypoint(o, start, radius))
  }

  /**
   * With consistent labels on a well-formed tree, a waypoint the path gives a
   * labelled cell `c` lies inside `c` and inside the labelled neighbour, no
   * longer than `c`, through which the path reached `c`.
   */
  lemma WaypointLeadsToNeighbour(root: T.Node, nb: seq<seq<nat>>, ov: seq<seq<Overlap>>, lab: seq<Label>,
                                 id: nat, c: nat, start: Vec2, radius: real)
    requires NeighborLists(root, nb, ov, |Cells(root)|, 0) && CellsNumbered(root)
    requires Labelled(Cells(root), nb, lab, id)
    requires T.WellFormed(root) && root.Branch? && radius >= 0.0
    requires c < |lab| && lab[c].id == id && lab[c].via.Some?
    ensures exists p ::
      0 <= p < |lab| && lab[p].id == id && c in nb[p] && lab[p].length <= lab[c].length &&
      Inside(Waypoint(lab[c].via.value, start, radius), Cells(root)[c].box) &&
      Inside(Waypoint(lab[c].via.value, start, radius), Cells(root)[p].box)
  {
    var n := |Cells(root)|;
    var p :| 0 <= p < n && p < |nb| && p < |lab| && c < |lab| && c < n &&
      lab[p].id == id && c in nb[p] && lab[p].length <= lab[c].length &&
      lab[c].via.value == MakeOverlap(Cells(root)[p].box, Cells(root)[c].box);
    NeighborsOverlap(root, nb, ov, p, c);
    CellsProper(root, p);
    CellsProper(root, c);
    WaypointInsideBoth(Cells(root)[p].box, Cells(root)[c].box, start, radius);
  }

  /** On a well-formed tree every cell has positive extent. */
  lemma CellsProper(root: T.Node, k: nat)
    requires T.WellFormed(root) && k < |Cells(root)|
    ensures Proper(Cells(root)[k].box)
  {
    T.CollectedMembers(T.CollectPathNode, T.Leaves(root));
    assert Cells(root)[k] in Cells(root);
    LeavesProper(root, Cells(root)[k]);
  }

  lemma {:induction false} LeavesProper(t: T.Node, l: T.Node)
    requires T.WellFormed(t) && l in T.Leaves(t)
    ensures Proper(l.box)
  {
    match t
    case Branch(_, s1, s2) =>
      if l in T.Leaves(s1) {
        LeavesProper(s1, l);
      } else {
        LeavesProper(s2, l);
      }
    case _ =>
  }

  /** Whatever the box, the cells a query returns index the per-cell columns. */
  lemma QueryCellsIn(root: T.Node, q: Box)
    requires CellsNumbered(root)
    ensures CellsIn(Query(root, q), |Cells(root)|)
  {
    var s := Query(root, q);
    forall k | 0 <= k < |s|
      ensures s[k].Rectangle? && s[k].cell < |Cells(root)|
    {
      assert s[k] in s;
      QueriedCell(root, q, s[k]);
    }
  }

  /**
   * The scratch state of `n` fresh cells (`path_id` 0, `path_length` 0, no
   * `path_overlap`), an empty `reusable_array` and an empty `pathnode_queue`
   * keyed by a fresh `priority_in_queue` column.
   */
  method AllocateLabels(n: nat)
    returns (labels: array<Label>, reusable: C.PermanentArray<T.Node>, frontier: C.PermanentPriorityQueue,
             ghost owned: set<object>)
    ensures owned == {labels as object} + reusable.Repr + frontier.Repr && fresh(owned)
    ensures reusable.Valid() && frontier.Valid() && reusable.Repr !! frontier.Repr
    ensures labels !in reusable.Repr && labels !in frontier.Repr
    ensures labels.Length == n && frontier.keys.Length == n
    ensures forall c :: 0 <= c < n ==> labels[c] == Label(0, 0.0, None)
    ensures reusable.Contents == [] && frontier.Contents() == []
  {
    labels := new Label[n](_ => Label(0, 0.0, None));
    var priority := new real[n](_ => 0.0);
    reusable := new C.PermanentArray<T.Node>();
    frontier := new C.PermanentPriorityQueue(priority);
    owned := {labels as object} + reusable.Repr + frontier.Repr;
  }

  // ---------------------------------------------------------------------
  // The map's navigation state
  // ---------------------------------------------------------------------

  /**
   * `Map`'s navigation state: the entity tree; the cells' neighbour lists,
   * overlap lists and labels as arrays indexed by cell id; `reusable` is
   * `reusable_array`; `frontier` is `pathnode_queue`, whose key column is the
   * cells' `priority_in_queue`; `queryId` and `pathEnd` are the map's
   * `path_id` and `path_end`.
   */
  class PathMap {
    const root: T.Node
    const neighbors: array<seq<nat>>
    const overlaps: array<seq<Overlap>>
    const labels: array<Label>
    ghost const cells: seq<T.Node>
    const reusable: C.PermanentArray<T.Node>
    const frontier: C.PermanentPriorityQueue
    var queryId: nat
    var pathEnd: Vec2

    /** The owned objects are distinct, the arrays have one entry per cell, and the graph and the labels are consistent. */
    ghost predicate Valid()
      reads this, reusable, frontier, Repr()
    {
      Owned() && reusable.Valid() && frontier.Valid() && Sized() &&
      Graph(cells, neighbors[..], overlaps[..]) &&
      Labelled(cells, neighbors[..], labels[..], queryId)
    }

    /** `cells` are the tree's cells, numbered by id, and every leaf kind is handled by `collectPathNode`. */
    ghost predicate TreeReady()
    {
      cells == Cells(root) && CellsNumbered(root) && T.HandledBelow(T.CollectPathNode, root)
    }

    /** The per-cell arrays. */
    ghost function Columns(): set<object>
      reads this
    {
      {neighbors as object, overlaps as object, labels as object}
    }

    /** The footprint: the per-cell arrays and the objects of the two containers. */
    ghost function Repr(): set<object>
      reads this, reusable, frontier
    {
      Columns() + reusable.Repr + frontier.Repr
    }

    /** The parts of the footprint are not shared. */
    ghost predicate Owned()
      reads this, reusable, frontier
    {
      this !in reusable.Repr && this !in frontier.Repr && reusable.Repr !! frontier.Repr &&
      Columns() !! frontier.Repr && Columns() !! reusable.Repr
    }

    /** Every per-cell column has one entry per cell. */
    ghost predicate Sized()
      reads this, frontier
    {
      neighbors.Length == |cells| && overlaps.Length == |cells| &&
      labels.Length == |cells| && frontier.keys.Length == |cells|
    }

    /** Between queries the reusable array and the frontier are empty. */
    ghost predicate Resting()
      reads this, reusable, frontier, frontier.queue
    {
      reusable.Contents == [] && frontier.Contents() == []
    }

    /** Every queued cell carries the current query's id. */
    ghost predicate FrontierLabelled()
      reads this, frontier, frontier.queue, labels
    {
      AllLabelled(frontier.Contents(), labels[..], queryId)
    }

    /**
     * `new Map(...)`'s navigation part: build the graph, and start with
     * `path_id` 0 on the map and on every cell (so every cell counts as
     * labelled until the first path query) and `path_end` at the origin.
     */
    constructor (root: T.Node)
      requires CellsNumbered(root) && T.HandledBelow(T.CollectPathNode, root)
      ensures Valid() && TreeReady() && fresh(Repr()) && Resting()
      ensures NeighborLists(root, neighbors[..], overlaps[..], |Cells(root)|, 0)
      ensures this.root == root && queryId == 0 && pathEnd == Vec2(0.0, 0.0)
      ensures forall c :: 0 <= c < labels.Length ==> labels[c] == Label(0, 0.0, None)
    {
      this.root := root;
      var nb, ov := InitializePathNodes(root);
      BuiltGraph(root, nb[..], ov[..]);
      cells := Cells(root);
      var lab, r, f, owned := AllocateLabels(nb.Length);
      neighbors, overlaps, labels := nb, ov, lab;
      reusable, frontier := r, f;
      queryId := 0;
      pathEnd := Vec2(0.0, 0.0);
      new;
      ValidAtStart();
    }

    /** The state the constructor builds is valid. */
    lemma ValidAtStart()
      requires Owned() && reusable.Valid() && frontier.Valid() && Sized()
      requires Graph(cells, neighbors[..], overlaps[..])
      requires forall c :: 0 <= c < labels.Length ==> labels[c] == Label(0, 0.0, None)
      requires queryId == 0
      ensures Valid()
    {
      LabelledAtStart(cells, neighbors[..], labels[..]);
    }

    /**
     * `constructPathEndingAt`: a new query id, the start cells (those
     * containing `end`) labelled with length 0 and no overlap and queued,
     * then Dijkstra's loop, stopped after `fuel` pops; `completed` says the
     * frontier ran empty.
     */
    method ConstructPathEndingAt(g: Geometry, end: Vec2, fuel: nat) returns (completed: bool)
      requires Valid() && TreeReady() && Resting() && NonNegativeLength(g)
      modifies this, labels, reusable.Repr, frontier.Repr
      ensures Valid()
      ensures queryId == old(queryId) + 1 && pathEnd == end
      ensures reusable.Contents == [] && (completed <==> frontier.Contents() == [])
      ensures Seeded(Query(root, BoxAround(end, 0.0)), labels[..], queryId)
      ensures OnlySeeds(Query(root, BoxAround(end, 0.0)), labels[..], queryId)
    {
      LabelledNewQuery(cells, neighbors[..], labels[..], queryId);
      queryId := queryId + 1;
      pathEnd := end;
      SeedFrontier(end);
      completed := RunFrontier(g, end, fuel, Query(root, BoxAround(end, 0.0)));
    }

    /** The start cells: collect the cells containing `end`, then pop each, label it and queue it with priority 0. */
    method SeedFrontier(end: Vec2)
      requires Valid() && TreeReady() && Resting()
      requires forall c :: 0 <= c < labels.Length ==> labels[c].id != queryId
      modifies labels, reusable.Repr, frontier.Repr
      ensures Valid() && FrontierLabelled()
      ensures fresh(frontier.Repr - old(frontier.Repr))
      ensures reusable.Contents == []
      ensures Seeded(Query(root, BoxAround(end, 0.0)), labels[..], queryId)
      ensures OnlySeeds(Query(root, BoxAround(end, 0.0)), labels[..], queryId)
    {
      ghost var s := Query(root, BoxAround(end, 0.0));
      QueryCellsIn(root, BoxAround(end, 0.0));
      CollectInto(BoxAround(end, 0.0));
      NoSeedsYet(labels[..], queryId);
      assert s[|s|..] == [];
      while reusable.count > 0
        invariant Valid() && FrontierLabelled()
        invariant fresh(reusable.Repr - old(reusable.Repr)) && fresh(frontier.Repr - old(frontier.Repr))
        invariant |reusable.Contents| <= |s| && reusable.Contents == s[..|reusable.Contents|]
        invariant Seeded(s[|reusable.Contents|..], labels[..], queryId)
        invariant OnlySeeds(s[|reusable.Contents|..], labels[..], queryId)
        decreases reusable.count
      {
        SeedNext(s);
      }
      assert s[0..] == s;
    }

    /** One turn of the seeding loop: pop the last collected cell, label it and queue it. */
    method SeedNext(ghost s: seq<T.Node>)
      requires Valid() && FrontierLabelled() && CellsIn(s, labels.Length)
      requires 0 < |reusable.Contents| <= |s| && reusable.Contents == s[..|reusable.Contents|]
      requires Seeded(s[|reusable.Contents|..], labels[..], queryId)
      requires OnlySeeds(s[|reusable.Contents|..], labels[..], queryId)
      modifies labels, reusable.Repr, frontier.Repr
      ensures Valid() && FrontierLabelled()
      ensures reusable.Repr == old(reusable.Repr) && fresh(frontier.Repr - old(frontier.Repr))
      ensures |reusable.Contents| == |old(reusable.Contents)| - 1 && reusable.Contents == s[..|reusable.Contents|]
      ensures Seeded(s[|reusable.Contents|..], labels[..], queryId)
      ensures OnlySeeds(s[|reusable.Contents|..], labels[..], queryId)
    {
      ghost var m := |reusable.Contents|;
      var node := TakeCollected();
      assert node == s[m - 1];
      SeedStep(s, m, labels[..], queryId);
      Seed(node.cell);
    }

    /** `forEach(box, 'collectPathNode', reusable_array)`. */
    method CollectInto(q: Box)
      requires Valid() && TreeReady()
      modifies reusable.Repr
      ensures Valid() && fresh(reusable.Repr - old(reusable.Repr))
      ensures reusable.Contents == old(reusable.Contents) + Query(root, q)
    {
      T.ForEach(root, Some(q), T.CollectPathNode, reusable);
    }

    /** `reusable_array.pop()` on a non-empty array of cells. */
    method TakeCollected() returns (node: T.Node)
      requires Valid() && reusable.Contents != []
      modifies reusable.Repr
      ensures Valid() && reusable.Repr == old(reusable.Repr)
      ensures node == old(reusable.Contents)[|old(reusable.Contents)| - 1]
      ensures reusable.Contents == old(reusable.Contents)[..|old(reusable.Contents)| - 1]
    {
      var r := reusable.Pop();
      node := r.value;
    }

    /** Label cell `c` as a start cell and queue it with priority 0. */
    method Seed(c: nat)
      requires Valid() && FrontierLabelled() && c < labels.Length
      modifies labels, frontier.Repr
      ensures Valid() && FrontierLabelled()
      ensures fresh(frontier.Repr - old(frontier.Repr))
      ensures labels[..] == old(labels[..])[c := Label(queryId, 0.0, None)]
    {
      SeedKeepsLabels(cells, neighbors[..], labels[..], queryId, c);
      RelabelKeepsQueued(frontier.Contents(), labels[..], queryId, c, Label(queryId, 0.0, None));
      labels[c] := Label(queryId, 0.0, None);
      ghost var pos := Enqueue(c, 0.0);
    }

    /** `frontier.push(node, priority)` for a cell carrying the current id. */
    method Enqueue(c: nat, priority: real) returns (ghost pos: nat)
      requires Valid() && FrontierLabelled() && c < labels.Length && labels[c].id == queryId
      modifies frontier.Repr
      ensures Valid() && FrontierLabelled()
      ensures fresh(frontier.Repr - old(frontier.Repr))
      ensures pos <= |old(frontier.Contents())|
      ensures frontier.Contents() == old(frontier.Contents())[..pos] + [c] + old(frontier.Contents())[pos..]
    {
      ghost var q := frontier.Contents();
      pos := frontier.Push(c, priority);
      InsertKeepsLabelled(q, labels[..], queryId, c, pos);
    }

    /**
     * Dijkstra's loop: pop the front cell and relax each of its neighbours,
     * at most `fuel` times; `completed` says the frontier ran empty.
     */
    method RunFrontier(g: Geometry, end: Vec2, fuel: nat, ghost s: seq<T.Node>) returns (completed: bool)
      requires Valid() && FrontierLabelled() && NonNegativeLength(g)
      requires Seeded(s, labels[..], queryId) && OnlySeeds(s, labels[..], queryId)
      modifies labels, frontier.Repr
      ensures Valid() && fresh(frontier.Repr - old(frontier.Repr))
      ensures completed <==> frontier.Contents() == []
      ensures Seeded(s, labels[..], queryId) && OnlySeeds(s, labels[..], queryId)
    {
      var remaining := fuel;
      completed := frontier.Empty();
      while !completed && remaining > 0
        invariant Valid() && FrontierLabelled()
        invariant fresh(frontier.Repr - old(frontier.Repr))
        invariant completed <==> frontier.Contents() == []
        invariant Seeded(s, labels[..], queryId) && OnlySeeds(s, labels[..], queryId)
        decreases remaining
      {
        Step(g, end, s);
        remaining := remaining - 1;
        completed := frontier.Empty();
      }
    }

    /** One turn of Dijkstra's loop: pop the front cell and relax its neighbours. */
    method Step(g: Geometry, end: Vec2, ghost s: seq<T.Node>)
      requires Valid() && FrontierLabelled() && NonNegativeLength(g) && frontier.Contents() != []
      requires Seeded(s, labels[..], queryId) && OnlySeeds(s, labels[..], queryId)
      modifies labels, frontier.Repr
      ensures Valid() && FrontierLabelled() && fresh(frontier.Repr - old(frontier.Repr))
      ensures Seeded(s, labels[..], queryId) && OnlySeeds(s, labels[..], queryId)
    {
      var current := PopFront();
      Expand(g, end, current, s);
    }

    /** `frontier.pop()` on a non-empty frontier: a queued cell carrying the current id. */
    method PopFront() returns (cur: nat)
      requires Valid() && FrontierLabelled() && frontier.Contents() != []
      modifies frontier.Repr
      ensures Valid() && FrontierLabelled() && frontier.Repr == old(frontier.Repr)
      ensures cur < labels.Length && labels[cur].id == queryId
      ensures cur == old(frontier.Contents())[|old(frontier.Contents())| - 1]
      ensures frontier.Contents() == old(frontier.Contents())[..|old(frontier.Contents())| - 1]
    {
      var r := frontier.Pop();
      cur := r.value;
    }

    /** Relax every neighbour of the popped cell `cur`, in list order. */
    method Expand(g: Geometry, end: Vec2, cur: nat, ghost s: seq<T.Node>)
      requires Valid() && FrontierLabelled() && NonNegativeLength(g)
      requires cur < labels.Length && labels[cur].id == queryId
      requires Seeded(s, labels[..], queryId) && OnlySeeds(s, labels[..], queryId)
      modifies labels, frontier.Repr
      ensures Valid() && FrontierLabelled()
      ensures fresh(frontier.Repr - old(frontier.Repr))
      ensures Seeded(s, labels[..], queryId) && OnlySeeds(s, labels[..], queryId)
    {
      var i := 0;
      while i < |neighbors[cur]|
        invariant Valid() && FrontierLabelled()
        invariant fresh(frontier.Repr - old(frontier.Repr))
        invariant labels[cur].id == queryId
        invariant Seeded(s, labels[..], queryId) && OnlySeeds(s, labels[..], queryId)
      {
        ghost var pos := Relax(g, end, cur, i, s);
        i := i + 1;
      }
    }

    /**
     * The body of the neighbour loop: the route to entry `k` of `cur`'s list
     * costs `cur`'s length plus the distance from where `cur` was entered;
     * the neighbour is relabelled and queued (at `pos`) when it was
     * unlabelled in this query or strictly longer, and nothing changes
     * otherwise.
     */
    method Relax(g: Geometry, end: Vec2, cur: nat, k: nat, ghost s: seq<T.Node>) returns (ghost pos: nat)
      requires Valid() && FrontierLabelled() && NonNegativeLength(g)
      requires cur < labels.Length && k < |neighbors[cur]| && labels[cur].id == queryId
      requires Seeded(s, labels[..], queryId) && OnlySeeds(s, labels[..], queryId)
      modifies labels, frontier.Repr
      ensures Valid() && FrontierLabelled()
      ensures fresh(frontier.Repr - old(frontier.Repr))
      ensures Seeded(s, labels[..], queryId) && OnlySeeds(s, labels[..], queryId)
      ensures labels[cur] == old(labels[cur])
      ensures var other, o := neighbors[cur][k], overlaps[cur][k];
        var cand := CandidateLength(g, end, old(labels[cur].length), old(labels[cur].via), o);
        if old(labels[other].id) != queryId || old(labels[other].length) > cand then
          labels[..] == old(labels[..])[other := Label(queryId, cand, Some(o))] &&
          pos <= |old(frontier.Contents())| &&
          frontier.Contents() == old(frontier.Contents())[..pos] + [other] + old(frontier.Contents())[pos..]
        else
          labels[..] == old(labels[..]) && frontier.Contents() == old(frontier.Contents())
    {
      var other := neighbors[cur][k];
      var overlap := overlaps[cur][k];
      var length := CandidateLength(g, end, labels[cur].length, labels[cur].via, overlap);
      pos := 0;
      if labels[other].id != queryId || labels[other].length > length {
        Relabel(cur, k, length, s);
        pos := Enqueue(other, length);
      }
    }

    /** Give entry `k` of `cur`'s list the length `cand` and the overlap it shares with `cur`. */
    method Relabel(cur: nat, k: nat, cand: real, ghost s: seq<T.Node>)
      requires Valid() && FrontierLabelled()
      requires cur < labels.Length && k < |neighbors[cur]| && labels[cur].id == queryId && cand >= labels[cur].length
      requires labels[neighbors[cur][k]].id != queryId || labels[neighbors[cur][k]].length > cand
      requires Seeded(s, labels[..], queryId) && OnlySeeds(s, labels[..], queryId)
      modifies labels
      ensures Valid() && FrontierLabelled()
      ensures Seeded(s, labels[..], queryId) && OnlySeeds(s, labels[..], queryId)
      ensures labels[..] == old(labels[..])[neighbors[cur][k] := Label(queryId, cand, Some(overlaps[cur][k]))]
    {
      RelabelStep(cells, neighbors[..], overlaps[..], labels[..], queryId, s, cur, k, cand);
      var other := neighbors[cur][k];
      RelabelKeepsQueued(frontier.Contents(), labels[..], queryId, other, Label(queryId, cand, Some(overlaps[cur][k])));
      labels[other] := Label(queryId, cand, Some(overlaps[cur][k]));
    }

    /**
     * `getMoveTargetFromPath`: among the cells containing `start`, popped
     * from the back, the labelled cell of least length (the first popped
     * wins ties); none gives no target, a start cell gives `path_end`, and
     * otherwise the waypoint in the overlap the cell was reached through.
     */
    method GetMoveTargetFromPath(start: Vec2, radius: real) returns (target: Option<Vec2>)
      requires Valid() && TreeReady() && reusable.Contents == []
      modifies reusable.Repr
      ensures Valid() && reusable.Contents == []
      ensures var s := Query(root, BoxAround(start, 0.0));
        CellsIn(s, labels.Length) &&
        target == MoveTarget(PickCell(s, labels[..], queryId), labels[..], pathEnd, start, radius)
    {
      ghost var s := Query(root, BoxAround(start, 0.0));
      QueryCellsIn(root, BoxAround(start, 0.0));
      CollectInto(BoxAround(start, 0.0));
      var best: Option<nat> := None;
      assert s[|s|..] == [];
      while reusable.count > 0
        invariant Valid() && fresh(reusable.Repr - old(reusable.Repr))
        invariant |reusable.Contents| <= |s| && reusable.Contents == s[..|reusable.Contents|]
        invariant best == PickCell(s[|reusable.Contents|..], labels[..], queryId)
        decreases reusable.count
      {
        best := PickNext(s, best);
      }
      assert s[0..] == s;
      target := None;
      if best.Some? {
        match labels[best.value].via
        case None =>
          target := Some(pathEnd);
        case Some(o) =>
          target := Some(Waypoint(o, start, radius));
      }
    }

    /** One turn of the choice loop: pop the last collected cell and keep it when it is labelled and strictly shorter. */
    method PickNext(ghost s: seq<T.Node>, best: Option<nat>) returns (next: Option<nat>)
      requires Valid() && CellsIn(s, labels.Length)
      requires 0 < |reusable.Contents| <= |s| && reusable.Contents == s[..|reusable.Contents|]
      requires best == PickCell(s[|reusable.Contents|..], labels[..], queryId)
      modifies reusable.Repr
      ensures Valid() && reusable.Repr == old(reusable.Repr)
      ensures |reusable.Contents| == |old(reusable.Contents)| - 1 && reusable.Contents == s[..|reusable.Contents|]
      ensures next == PickCell(s[|reusable.Contents|..], labels[..], queryId)
    {
      ghost var m := |reusable.Contents|;
      var node := TakeCollected();
      assert node == s[m - 1] && s[m - 1..][1..] == s[m..];
      var c := node.cell;
      next := best;
      if labels[c].id == queryId {
        if best.None? || labels[best.value].length > labels[c].length {
          next := Some(c);
        }
      }
    }
  }
}
