/**
 * The static bounding-box trees of a map (`MapNode`, `EntityNode`,
 * `PolygonNode`): a binary tree of boxes whose leaves are polygons (drawn
 * geometry), edges (colliders and shadow casters), rectangles (navigation
 * cells) or other entities, and the box query that walks it.
 */
module SpatialTree {
  import opened Wrappers
  import opened Geometry
  import C = Containers

  /**
   * A tree node. Every node carries its bounding box. A rectangle leaf carries
   * `cell`, the identity the navigation graph indexes it by: rectangles are
   * numbered in tree order while the tree is built.
   */
  datatype Node =
    | Branch(box: Box, sub1: Node, sub2: Node)
    | Polygon(box: Box, indices: seq<int>)
    | Edge(box: Box, pt1: Vec2, pt2: Vec2)
    | Rectangle(box: Box, cell: nat)
    | Inert(box: Box)

  /** The leaves below `t`, `sub1`'s before `sub2`'s; a leaf is its own only leaf. */
  function Leaves(t: Node): seq<Node>
  {
    match t
    case Branch(_, s1, s2) => Leaves(s1) + Leaves(s2)
    case _ => [t]
  }

  /**
   * `traverseBranch` / `traverseLeaf` / `branchForEach` / `leafForEach`: the
   * leaves handed to the visitor, in order. A leaf is always visited (the root
   * is never tested). Below a branch, with no box every child is walked; with
   * a box a child is skipped unless it strictly overlaps the box, walked with
   * no box when it lies inside the box, and walked with the box otherwise.
   */
  function Traverse(t: Node, q: Option<Box>): seq<Node>
    decreases t, 1
  {
    match t
    case Branch(_, s1, s2) =>
      if q.None? then Traverse(s1, None) + Traverse(s2, None)
      else VisitChild(s1, q.value) + VisitChild(s2, q.value)
    case _ => [t]
  }

  /** The per-child step of `traverseBranch` under a query box. */
  function VisitChild(c: Node, q: Box): seq<Node>
    decreases c, 2
  {
    if !Overlaps(c.box, q) then []
    else if ContainedIn(c.box, q) then Traverse(c, None)
    else Traverse(c, Some(q))
  }

  /** A leaf is handed to the visitor exactly once, whatever the box. */
  lemma LeafVisitedOnce(t: Node, q: Option<Box>)
    requires !t.Branch?
    ensures Traverse(t, q) == [t]
  {
  }

  /** With no box, the walk visits every leaf below the node, in tree order. */
  lemma {:induction false} TraverseAllIsLeaves(t: Node)
    ensures Traverse(t, None) == Leaves(t)
  {
    match t
    case Branch(_, s1, s2) =>
      TraverseAllIsLeaves(s1);
      TraverseAllIsLeaves(s2);
    case _ =>
  }

  /** Whatever the box, the walk only visits leaves of the tree. */
  lemma {:induction false} TraverseVisitsLeaves(t: Node, q: Option<Box>)
    ensures forall l :: l in Traverse(t, q) ==> l in Leaves(t)
  {
    match t
    case Branch(_, s1, s2) =>
      if q.None? {
        TraverseVisitsLeaves(s1, None);
        TraverseVisitsLeaves(s2, None);
      } else {
        TraverseVisitsLeaves(s1, None);
        TraverseVisitsLeaves(s2, None);
        TraverseVisitsLeaves(s1, q);
        TraverseVisitsLeaves(s2, q);
      }
    case _ =>
  }

  /**
   * The shape the map compiler produces: every box has positive extent and
   * each child's box lies inside its parent's.
   */
  predicate WellFormed(t: Node) {
    Proper(t.box) &&
    match t
    case Branch(b, s1, s2) =>
      ContainedIn(s1.box, b) && ContainedIn(s2.box, b) && WellFormed(s1) && WellFormed(s2)
    case _ => true
  }

  /** The reference query without the containment shortcut: prune by overlap all the way down. */
  function Clip(t: Node, q: Box): seq<Node>
    decreases t, 1
  {
    match t
    case Branch(_, s1, s2) => ClipChild(s1, q) + ClipChild(s2, q)
    case _ => [t]
  }

  function ClipChild(c: Node, q: Box): seq<Node>
    decreases c, 2
  {
    if Overlaps(c.box, q) then Clip(c, q) else []
  }

  /** The leaves of `s` whose boxes strictly overlap `q`, in order. */
  function OverlappingLeaves(s: seq<Node>, q: Box): (r: seq<Node>)
    ensures forall l :: l in r <==> l in s && Overlaps(l.box, q)
  {
    if s == [] then [] else
      (if Overlaps(s[0].box, q) then [s[0]] else []) + OverlappingLeaves(s[1..], q)
  }

  lemma {:induction false} OverlappingLeavesConcat(a: seq<Node>, b: seq<Node>, q: Box)
    ensures OverlappingLeaves(a + b, q) == OverlappingLeaves(a, q) + OverlappingLeaves(b, q)
  {
    if a == [] {
      assert a + b == b;
    } else {
      assert (a + b)[1..] == a[1..] + b;
      OverlappingLeavesConcat(a[1..], b, q);
    }
  }

  /** In a well-formed tree every leaf's box lies inside the box of the node above it. */
  lemma {:induction false} LeavesInsideRoot(t: Node)
    requires WellFormed(t)
    ensures forall l :: l in Leaves(t) ==> ContainedIn(l.box, t.box)
  {
    match t
    case Branch(_, s1, s2) =>
      LeavesInsideRoot(s1);
      LeavesInsideRoot(s2);
    case _ =>
  }

  /** Below a node inside the box, clipping keeps everything. */
  lemma {:induction false} ClipInsideKeepsAll(t: Node, q: Box)
    requires WellFormed(t) && ContainedIn(t.box, q)
    ensures Clip(t, q) == Leaves(t)
  {
    match t
    case Branch(_, s1, s2) =>
      ContainedProperOverlaps(s1.box, q);
      ContainedProperOverlaps(s2.box, q);
      ClipInsideKeepsAll(s1, q);
      ClipInsideKeepsAll(s2, q);
    case _ =>
  }

  /**
   * The containment shortcut is only an optimisation: on a well-formed tree
   * the query visits the same leaves, in the same order, as clipping all the
   * way down.
   */
  lemma {:induction false} ShortcutMatchesClip(t: Node, q: Box)
    requires WellFormed(t)
    ensures Traverse(t, Some(q)) == Clip(t, q)
    decreases t, 0
  {
    match t
    case Branch(_, s1, s2) =>
      ShortcutMatchesClipChild(s1, q);
      ShortcutMatchesClipChild(s2, q);
    case _ =>
  }

  lemma {:induction false} ShortcutMatchesClipChild(c: Node, q: Box)
    requires WellFormed(c)
    ensures VisitChild(c, q) == ClipChild(c, q)
    decreases c, 1
  {
    if Overlaps(c.box, q) {
      if ContainedIn(c.box, q) {
        TraverseAllIsLeaves(c);
        ClipInsideKeepsAll(c, q);
      } else {
        ShortcutMatchesClip(c, q);
      }
    }
  }

  /** Clipping a child of a well-formed tree keeps exactly its leaves that overlap the box. */
  lemma {:induction false} ClipChildIsOverlapping(c: Node, q: Box)
    requires WellFormed(c)
    ensures ClipChild(c, q) == OverlappingLeaves(Leaves(c), q)
  {
    match c
    case Branch(_, s1, s2) =>
      ClipChildIsOverlapping(s1, q);
      ClipChildIsOverlapping(s2, q);
      OverlappingLeavesConcat(Leaves(s1), Leaves(s2), q);
      if !Overlaps(c.box, q) {
        LeavesInsideRoot(c);
        forall l | l in Leaves(c)
          ensures !Overlaps(l.box, q)
        {
          if Overlaps(l.box, q) {
            OverlapsGrows(l.box, c.box, q);
          }
        }
        assert OverlappingLeaves(Leaves(c), q) == [];
      }
    case _ =>
      assert Leaves(c)[1..] == [];
  }

  /**
   * What a box query on a well-formed tree returns: exactly the leaves whose
   * boxes strictly overlap the query box, in tree order (the root branch
   * itself is never tested).
   */
  lemma QueryIsOverlappingLeaves(t: Node, q: Box)
    requires WellFormed(t) && t.Branch?
    ensures Traverse(t, Some(q)) == OverlappingLeaves(Leaves(t), q)
  {
    ShortcutMatchesClip(t, q);
    ClipChildIsOverlapping(t.sub1, q);
    ClipChildIsOverlapping(t.sub2, q);
    OverlappingLeavesConcat(Leaves(t.sub1), Leaves(t.sub2), q);
  }

  /** The visitor names of `branchForEach`: which leaves each one collects. */
  datatype Collector = Collect | CollectShadowCaster | CollectCollider | CollectPathNode

  /**
   * Whether leaf `l` has the method `f` names: polygon leaves have only
   * `collect`, every other leaf has the three entity methods and not `collect`.
   */
  predicate Handles(f: Collector, l: Node) {
    if l.Polygon? then f == Collect else !l.Branch? && f != Collect
  }

  /**
   * Whether `f` pushes `l`: `collect` pushes polygons, `collectShadowCaster`
   * and `collectCollider` push edges (`is_shadow_caster`, `is_collider`), and
   * `collectPathNode` pushes rectangles; everything else is `leafIgnore`.
   */
  predicate Collects(f: Collector, l: Node) {
    match f
    case Collect => l.Polygon?
    case CollectShadowCaster => l.Edge?
    case CollectCollider => l.Edge?
    case CollectPathNode => l.Rectangle?
  }

  /** Every leaf below `t` handles `f`. */
  predicate HandledBelow(f: Collector, t: Node) {
    match t
    case Branch(_, s1, s2) => HandledBelow(f, s1) && HandledBelow(f, s2)
    case _ => Handles(f, t)
  }

  lemma {:induction false} HandledBelowLeaves(f: Collector, t: Node)
    ensures HandledBelow(f, t) <==> forall l :: l in Leaves(t) ==> Handles(f, l)
  {
    match t
    case Branch(_, s1, s2) =>
      HandledBelowLeaves(f, s1);
      HandledBelowLeaves(f, s2);
    case _ =>
  }

  /** The leaves of `s` that `f` pushes, in order. */
  function Collected(f: Collector, s: seq<Node>): seq<Node>
  {
    if s == [] then [] else (if Collects(f, s[0]) then [s[0]] else []) + Collected(f, s[1..])
  }

  /** `Collected` keeps exactly the elements `f` pushes, and never adds any. */
  lemma {:induction false} CollectedMembers(f: Collector, s: seq<Node>)
    ensures forall l :: l in Collected(f, s) <==> l in s && Collects(f, l)
    ensures |Collected(f, s)| <= |s|
  {
    if s != [] {
      CollectedMembers(f, s[1..]);
      assert s == [s[0]] + s[1..];
    }
  }

  lemma {:induction false} CollectedConcat(f: Collector, a: seq<Node>, b: seq<Node>)
    ensures Collected(f, a + b) == Collected(f, a) + Collected(f, b)
  {
    if a == [] {
      assert a + b == b;
    } else {
      var head := if Collects(f, a[0]) then [a[0]] else [];
      assert (a + b)[0] == a[0] && (a + b)[1..] == a[1..] + b;
      CollectedConcat(f, a[1..], b);
      calc {
        Collected(f, a + b);
        head + Collected(f, a[1..] + b);
        head + (Collected(f, a[1..]) + Collected(f, b));
        (head + Collected(f, a[1..])) + Collected(f, b);
      }
    }
  }

  /**
   * `node.forEach(bbox, func_name, arr)`: the recursive walk of the map code,
   * pushing into a reusable array. It appends to `arr` the leaves `f` collects
   * among those the query visits, in visiting order. Calling a visitor a leaf
   * lacks is a type error in the source, so every leaf must handle `f`.
   */
  method ForEach(t: Node, q: Option<Box>, f: Collector, arr: C.PermanentArray<Node>)
    requires arr.Valid()
    requires HandledBelow(f, t)
    modifies arr.Repr
    ensures arr.Valid() && fresh(arr.Repr - old(arr.Repr))
    ensures arr.Contents == old(arr.Contents) + Collected(f, Traverse(t, q))
    decreases t, 1
  {
    if t.Branch? {
      if q.Some? {
        ForEachBranch(t, q.value, f, arr);
      } else {
        ForEachAll(t, f, arr);
      }
    } else {
      CollectedSingle(f, t);
      assert Traverse(t, q) == [t];
      if Collects(f, t) {
        arr.Push(t);
      }
    }
  }

  /** `branchForEach` with no box: both children, `sub1` first. */
  method ForEachAll(t: Node, f: Collector, arr: C.PermanentArray<Node>)
    requires t.Branch? && arr.Valid()
    requires HandledBelow(f, t)
    modifies arr.Repr
    ensures arr.Valid() && fresh(arr.Repr - old(arr.Repr))
    ensures arr.Contents == old(arr.Contents) + Collected(f, Traverse(t, None))
    decreases t, 0
  {
    var Branch(_, s1, s2) := t;
    ghost var c0 := arr.Contents;
    ghost var t1, t2 := Traverse(s1, None), Traverse(s2, None);
    assert Traverse(t, None) == t1 + t2;
    CollectedConcat(f, t1, t2);
    ForEach(s1, None, f, arr);
    assert arr.Contents == c0 + Collected(f, t1);
    ForEach(s2, None, f, arr);
    assert arr.Contents == (c0 + Collected(f, t1)) + Collected(f, t2);
    AppendAssoc(c0, Collected(f, t1), Collected(f, t2));
  }

  /** `branchForEach` under a query box: each child through the per-child step, `sub1` first. */
  method ForEachBranch(t: Node, b: Box, f: Collector, arr: C.PermanentArray<Node>)
    requires t.Branch? && arr.Valid()
    requires HandledBelow(f, t)
    modifies arr.Repr
    ensures arr.Valid() && fresh(arr.Repr - old(arr.Repr))
    ensures arr.Contents == old(arr.Contents) + Collected(f, Traverse(t, Some(b)))
    decreases t, 0
  {
    var Branch(_, s1, s2) := t;
    ghost var c0 := arr.Contents;
    ghost var t1, t2 := VisitChild(s1, b), VisitChild(s2, b);
    assert Traverse(t, Some(b)) == t1 + t2;
    CollectedConcat(f, t1, t2);
    ForEachChild(s1, b, f, arr);
    assert arr.Contents == c0 + Collected(f, t1);
    ForEachChild(s2, b, f, arr);
    assert arr.Contents == (c0 + Collected(f, t1)) + Collected(f, t2);
    AppendAssoc(c0, Collected(f, t1), Collected(f, t2));
  }

  lemma AppendAssoc(a: seq<Node>, b: seq<Node>, c: seq<Node>)
    ensures (a + b) + c == a + (b + c)
  {
  }

  lemma CollectedSingle(f: Collector, l: Node)
    ensures Collected(f, [l]) == if Collects(f, l) then [l] else []
  {
    assert [l][1..] == [];
  }

  /** The per-child step of `branchForEach` under a query box. */
  method ForEachChild(c: Node, b: Box, f: Collector, arr: C.PermanentArray<Node>)
    requires arr.Valid()
    requires HandledBelow(f, c)
    modifies arr.Repr
    ensures arr.Valid() && fresh(arr.Repr - old(arr.Repr))
    ensures arr.Contents == old(arr.Contents) + Collected(f, VisitChild(c, b))
    decreases c, 2
  {
    if Overlaps(c.box, b) {
      if ContainedIn(c.box, b) {
        ForEach(c, None, f, arr);
      } else {
        ForEach(c, Some(b), f, arr);
      }
    }
  }

  /** The edges the query visits, as segments: the colliders and shadow casters. */
  function EdgeSegments(s: seq<Node>): (r: seq<Segment>)
    ensures |r| <= |s|
    ensures forall l :: l in s && l.Edge? ==> Segment(l.pt1, l.pt2) in r
    ensures forall e :: e in r ==> exists l :: l in s && l.Edge? && e == Segment(l.pt1, l.pt2)
  {
    if s == [] then []
    else (if s[0].Edge? then [Segment(s[0].pt1, s[0].pt2)] else []) + EdgeSegments(s[1..])
  }

  /** The cell ids `next`, `next + 1`, …, `next + n - 1`. */
  function Consecutive(next: nat, n: nat): (r: seq<nat>)
    ensures |r| == n
    ensures forall k :: 0 <= k < n ==> r[k] == next + k
  {
    if n == 0 then [] else Consecutive(next, n - 1) + [next + n - 1]
  }

  /** The ids of the navigation cells among `s`, in order. */
  function CellIds(s: seq<Node>): seq<nat>
  {
    if s == [] then [] else (if s[0].Rectangle? then [s[0].cell] else []) + CellIds(s[1..])
  }

  /** A node of the map file as parsed JSON; `JAbsent` stands for a missing child. */
  datatype Json =
    | JNode(kind: string, bbox: seq<real>, value: seq<int>, sub1: Json, sub2: Json)
    | JAbsent

  /** `new Uint16Array(value)`: each entry reduced modulo 2^16. */
  function Uint16s(value: seq<int>): (r: seq<int>)
    ensures |r| == |value|
    ensures forall i :: 0 <= i < |value| ==> 0 <= r[i] < 65536 && r[i] % 65536 == value[i] % 65536
    ensures (forall i :: 0 <= i < |value| ==> 0 <= value[i] < 65536) ==> r == value
  {
    if value == [] then [] else [value[0] % 65536] + Uint16s(value[1..])
  }

  /**
   * `new MapNode(json, vertices)`: copy `bbox[0..3]` into the box, build both
   * children of a branch, wrap a polygon's indices into 16 bits, look up an
   * edge's two vertices, and give each rectangle the next cell id (`next` is
   * the first unused one; the second result is the first unused one after).
   * `None` where the source would fail: a missing child, a box with fewer than
   * four entries, or an edge whose vertex indices do not name vertices.
   */
  function NodeFromJson(j: Json, vertices: seq<Vec2>, next: nat): (r: Option<(Node, nat)>)
    ensures r.Some? ==> r.value.1 >= next
    decreases j
  {
    if j.JAbsent? || |j.bbox| < 4 then None
    else
      var box := Box(j.bbox[0], j.bbox[1], j.bbox[2], j.bbox[3]);
      if j.kind == "branch" then
        match NodeFromJson(j.sub1, vertices, next)
        case None => None
        case Some((n1, next1)) =>
          match NodeFromJson(j.sub2, vertices, next1)
          case None => None
          case Some((n2, next2)) => Some((Branch(box, n1, n2), next2))
      else LeafFromJson(j.kind, box, j.value, vertices, next)
  }

  /**
   * The leaf part of `new MapNode`: a polygon keeps its indices as 16-bit
   * values, an edge looks up its two vertices (`None` when they do not name
   * vertices), a rectangle takes the id `next` and uses it up, any other kind
   * is an entity that no visitor collects.
   */
  function LeafFromJson(kind: string, box: Box, value: seq<int>, vertices: seq<Vec2>, next: nat): (r: Option<(Node, nat)>)
    ensures r.None? <==>
      (kind == "edge" && (|value| < 2 || !(0 <= value[0] < |vertices|) || !(0 <= value[1] < |vertices|)))
    ensures r.Some? ==> !r.value.0.Branch? && r.value.0.box == box
    ensures r.Some? ==> (r.value.0.Rectangle? <==> kind == "rectangle")
    ensures r.Some? && r.value.0.Rectangle? ==> r.value.0.cell == next && r.value.1 == next + 1
    ensures r.Some? && !r.value.0.Rectangle? ==> r.value.1 == next
  {
    if kind == "polygon" then Some((Polygon(box, Uint16s(value)), next))
    else if kind == "edge" then
      if |value| < 2 || !(0 <= value[0] < |vertices|) || !(0 <= value[1] < |vertices|) then None
      else Some((Edge(box, vertices[value[0]], vertices[value[1]]), next))
    else if kind == "rectangle" then Some((Rectangle(box, next), next + 1))
    else Some((Inert(box), next))
  }

  /** The built node keeps the file's box. */
  lemma NodeFromJsonKeepsBox(j: Json, vertices: seq<Vec2>, next: nat)
    requires NodeFromJson(j, vertices, next).Some?
    ensures var n := NodeFromJson(j, vertices, next).value.0;
      n.box == Box(j.bbox[0], j.bbox[1], j.bbox[2], j.bbox[3])
  {
  }

  /**
   * Building numbers the navigation cells consecutively in tree order: the
   * rectangles of the built tree carry the ids `next`, `next + 1`, … up to the
   * first unused id that comes back. Built from 0, a cell's id is its position
   * among the cells of the no-box walk, which is how the navigation graph
   * indexes it.
   */
  lemma {:induction false} CellIdsConsecutive(j: Json, vertices: seq<Vec2>, next: nat)
    requires NodeFromJson(j, vertices, next).Some?
    ensures NumberedFrom(NodeFromJson(j, vertices, next).value.0, next, NodeFromJson(j, vertices, next).value.1)
    decreases j
  {
    var r := NodeFromJson(j, vertices, next).value;
    if j.kind == "branch" {
      BranchFromJson(j, vertices, next);
      var r1 := NodeFromJson(j.sub1, vertices, next).value;
      var r2 := NodeFromJson(j.sub2, vertices, r1.1).value;
      CellIdsConsecutive(j.sub1, vertices, next);
      CellIdsConsecutive(j.sub2, vertices, r1.1);
      CellIdsBranch(r.0.box, r1.0, r2.0, next, r1.1, r2.1);
    } else {
      CellIdsLeafJson(j, vertices, next);
    }
  }

  /** A built branch is the branch of its two built children, the second numbered after the first. */
  lemma BranchFromJson(j: Json, vertices: seq<Vec2>, next: nat)
    requires j.JNode? && j.kind == "branch" && NodeFromJson(j, vertices, next).Some?
    ensures NodeFromJson(j.sub1, vertices, next).Some?
    ensures var r1 := NodeFromJson(j.sub1, vertices, next).value;
      NodeFromJson(j.sub2, vertices, r1.1).Some? &&
      var r2 := NodeFromJson(j.sub2, vertices, r1.1).value;
      NodeFromJson(j, vertices, next).value == (Branch(NodeFromJson(j, vertices, next).value.0.box, r1.0, r2.0), r2.1)
  {
  }

  /** The cells of `n`, in tree order, carry the ids `first`, `first + 1`, …, `next - 1`. */
  ghost predicate NumberedFrom(n: Node, first: nat, next: nat)
  {
    first <= next && CellIds(Leaves(n)) == Consecutive(first, next - first)
  }

  lemma CellIdsBranch(box: Box, n1: Node, n2: Node, next: nat, next1: nat, next2: nat)
    requires NumberedFrom(n1, next, next1) && NumberedFrom(n2, next1, next2)
    ensures NumberedFrom(Branch(box, n1, n2), next, next2)
  {
    CellIdsConcat(Leaves(n1), Leaves(n2));
    ConsecutiveSplit(next, next1 - next, next2 - next1);
  }

  /** A built leaf is a rectangle taking id `next`, or another leaf taking no id. */
  lemma CellIdsLeafJson(j: Json, vertices: seq<Vec2>, next: nat)
    requires j.JNode? && j.kind != "branch" && NodeFromJson(j, vertices, next).Some?
    ensures NumberedFrom(NodeFromJson(j, vertices, next).value.0, next, NodeFromJson(j, vertices, next).value.1)
  {
    var box := Box(j.bbox[0], j.bbox[1], j.bbox[2], j.bbox[3]);
    var r := LeafFromJson(j.kind, box, j.value, vertices, next).value;
    assert NodeFromJson(j, vertices, next).value == r;
    CellIdsLeaf(r.0);
    if r.0.Rectangle? {
      assert Consecutive(next, 1) == [next];
    }
  }

  lemma CellIdsLeaf(n: Node)
    requires !n.Branch?
    ensures CellIds(Leaves(n)) == if n.Rectangle? then [n.cell] else []
  {
    assert Leaves(n) == [n];
    assert Leaves(n)[1..] == [];
  }

  lemma {:induction false} CellIdsConcat(a: seq<Node>, b: seq<Node>)
    ensures CellIds(a + b) == CellIds(a) + CellIds(b)
  {
    if a == [] {
      assert a + b == b;
    } else {
      var head := if a[0].Rectangle? then [a[0].cell] else [];
      assert (a + b)[0] == a[0] && (a + b)[1..] == a[1..] + b;
      CellIdsConcat(a[1..], b);
      calc {
        CellIds(a + b);
        head + CellIds(a[1..] + b);
        head + (CellIds(a[1..]) + CellIds(b));
        (head + CellIds(a[1..])) + CellIds(b);
      }
    }
  }

  lemma ConsecutiveSplit(next: nat, m: nat, n: nat)
    ensures Consecutive(next, m + n) == Consecutive(next, m) + Consecutive(next + m, n)
  {
    var a, b := Consecutive(next, m + n), Consecutive(next, m) + Consecutive(next + m, n);
    forall k | 0 <= k < m + n
      ensures a[k] == b[k]
    {
      if k >= m {
        assert b[k] == Consecutive(next + m, n)[k - m];
      }
    }
  }

  /**
   * `getPolygons(json)`: the polygons' `value` arrays in left-to-right order.
   * `None` where the source would fail: a missing node, or a non-polygon node
   * whose children are missing (an edge or rectangle in the polygon tree).
   */
  function GetPolygons(j: Json): (r: Option<seq<seq<int>>>)
    ensures j.JNode? && j.kind == "polygon" ==> r == Some([j.value])
    ensures r.Some? ==> |r.value| == PolygonCount(j)
    ensures r.Some? ==> forall v :: v in r.value <==> HasPolygon(j, v)
    decreases j
  {
    if j.JAbsent? then None
    else if j.kind == "polygon" then Some([j.value])
    else
      match GetPolygons(j.sub1)
      case None => None
      case Some(p1) =>
        match GetPolygons(j.sub2)
        case None => None
        case Some(p2) => Some(p1 + p2)
  }

  /** The number of polygon nodes reachable from `j` through non-polygon nodes. */
  function PolygonCount(j: Json): nat
    decreases j
  {
    if j.JAbsent? then 0
    else if j.kind == "polygon" then 1
    else PolygonCount(j.sub1) + PolygonCount(j.sub2)
  }

  /** Some polygon node reachable from `j` through non-polygon nodes has the value array `v`. */
  predicate HasPolygon(j: Json, v: seq<int>)
    decreases j
  {
    j.JNode? &&
    if j.kind == "polygon" then j.value == v
    else HasPolygon(j.sub1, v) || HasPolygon(j.sub2, v)
  }

  /** A polygon tree as the map compiler writes it: branches over polygons, boxes of four entries. */
  predicate PolygonTreeJson(j: Json)
    decreases j
  {
    j.JNode? && |j.bbox| >= 4 &&
    if j.kind == "polygon" then forall i :: 0 <= i < |j.value| ==> 0 <= j.value[i] < 65536
    else j.kind == "branch" && PolygonTreeJson(j.sub1) && PolygonTreeJson(j.sub2)
  }

  /** The index arrays of the polygon leaves of `s`, in order. */
  function PolygonLists(s: seq<Node>): (r: seq<seq<int>>)
    ensures |r| <= |s|
  {
    if s == [] then []
    else (if s[0].Polygon? then [s[0].indices] else []) + PolygonLists(s[1..])
  }

  lemma {:induction false} PolygonListsConcat(a: seq<Node>, b: seq<Node>)
    ensures PolygonLists(a + b) == PolygonLists(a) + PolygonLists(b)
  {
    if a == [] {
      assert a + b == b;
    } else {
      var head := if a[0].Polygon? then [a[0].indices] else [];
      assert (a + b)[0] == a[0] && (a + b)[1..] == a[1..] + b;
      PolygonListsConcat(a[1..], b);
      calc {
        PolygonLists(a + b);
        head + PolygonLists(a[1..] + b);
        head + (PolygonLists(a[1..]) + PolygonLists(b));
        (head + PolygonLists(a[1..])) + PolygonLists(b);
      }
    }
  }

  /**
   * On a polygon tree, `getPolygons` and the built tree agree: the JSON
   * builds, and the arrays come out as the built tree's polygon leaves in
   * tree order, one per leaf.
   */
  lemma {:induction false} GetPolygonsMatchesTree(j: Json, vertices: seq<Vec2>, next: nat)
    requires PolygonTreeJson(j)
    ensures NodeFromJson(j, vertices, next).Some?
    ensures var n := NodeFromJson(j, vertices, next).value.0;
      GetPolygons(j) == Some(PolygonLists(Leaves(n))) &&
      |GetPolygons(j).value| == |Collected(Collect, Leaves(n))|
    decreases j
  {
    if j.kind == "branch" {
      GetPolygonsMatchesTree(j.sub1, vertices, next);
      var (n1, next1) := NodeFromJson(j.sub1, vertices, next).value;
      GetPolygonsMatchesTree(j.sub2, vertices, next1);
      var (n2, next2) := NodeFromJson(j.sub2, vertices, next1).value;
      PolygonListsConcat(Leaves(n1), Leaves(n2));
      CollectedConcat(Collect, Leaves(n1), Leaves(n2));
    } else {
      var n := NodeFromJson(j, vertices, next).value.0;
      assert n == Polygon(n.box, Uint16s(j.value));
      assert Uint16s(j.value) == j.value;
      assert Leaves(n) == [n];
      assert Leaves(n)[1..] == [];
      assert PolygonLists(Leaves(n)) == [j.value];
    }
  }
}
