/**
 * Collision resolution of a moving circle against the map's edges
 * (`getPotentialColliders`, `checkCollision`, `tryResolveCollision`,
 * `tryResolveCollisionFallback`, `resolveCollision`). The vector helpers
 * whose source is not part of this model come in a `Geometry` record; what is
 * modelled is which candidate is chosen and how the steps add up.
 */
module Collision {
  import opened Wrappers
  import opened Geometry
  import M = Math3
  import T = SpatialTree

  /** `lineSegmentCircleCollide(lineFromTwoPoints(edge.pt1, edge.pt2), p, radius)`. */
  predicate Hit(g: Geometry, e: Segment, p: Vec2, radius: real) {
    g.collide(M.LineFromTwoPoints(e.pt1, e.pt2), p, radius)
  }

  /** The candidates that collide with the circle at `p`, in candidate order. */
  function Colliding(g: Geometry, p: Vec2, radius: real, cands: seq<Segment>): seq<Segment>
    decreases |cands|
  {
    if cands == [] then []
    else
      var last := cands[|cands| - 1];
      Colliding(g, p, radius, cands[..|cands| - 1]) + (if Hit(g, last, p, radius) then [last] else [])
  }

  /** `Colliding` keeps exactly the candidates that hit, and no others. */
  lemma {:induction false} CollidingMembers(g: Geometry, p: Vec2, radius: real, cands: seq<Segment>)
    ensures forall e :: e in Colliding(g, p, radius, cands) <==> e in cands && Hit(g, e, p, radius)
    ensures |Colliding(g, p, radius, cands)| <= |cands|
    decreases |cands|
  {
    if cands != [] {
      var init := cands[..|cands| - 1];
      CollidingMembers(g, p, radius, init);
      assert cands == init + [cands[|cands| - 1]];
    }
  }

  /** `Colliding` keeps the candidates' order: it distributes over concatenation. */
  lemma {:induction false} CollidingConcat(g: Geometry, p: Vec2, radius: real, a: seq<Segment>, b: seq<Segment>)
    ensures Colliding(g, p, radius, a + b) == Colliding(g, p, radius, a) + Colliding(g, p, radius, b)
    decreases |b|
  {
    if b == [] {
      assert a + b == a;
    } else {
      var init := b[..|b| - 1];
      assert (a + b)[..|a + b| - 1] == a + init;
      CollidingConcat(g, p, radius, a, init);
    }
  }

  /** The circle at `p` collides with no candidate. */
  predicate Free(g: Geometry, p: Vec2, radius: real, cands: seq<Segment>) {
    Colliding(g, p, radius, cands) == []
  }

  lemma FreeMeansNoHit(g: Geometry, p: Vec2, radius: real, cands: seq<Segment>)
    ensures Free(g, p, radius, cands) <==> forall e :: e in cands ==> !Hit(g, e, p, radius)
  {
    CollidingMembers(g, p, radius, cands);
    if !Free(g, p, radius, cands) {
      var e := Colliding(g, p, radius, cands)[0];
      assert e in Colliding(g, p, radius, cands);
    }
  }

  /**
   * `checkCollision`: walk the candidates and keep those that collide with
   * the circle at `start + delta`.
   */
  method CheckCollision(g: Geometry, start: Vec2, delta: Vec2, radius: real, cands: seq<Segment>)
    returns (colliders: seq<Segment>)
    ensures colliders == Colliding(g, Add(start, delta), radius, cands)
  {
    var p := Add(start, delta);
    colliders := [];
    var i := 0;
    while i < |cands|
      invariant 0 <= i <= |cands|
      invariant colliders == Colliding(g, p, radius, cands[..i])
    {
      assert cands[..i + 1][..i] == cands[..i];
      if Hit(g, cands[i], p, radius) {
        colliders := colliders + [cands[i]];
      }
      i := i + 1;
    }
    assert cands[..|cands|] == cands;
  }

  /** The move projected onto the edge's direction: `scale(dot(delta, e), e)` for `e = normalize(pt1 - pt2)`. */
  function Slide(g: Geometry, delta: Vec2, e: Segment): Vec2 {
    var ev := g.normalize(Sub(e.pt1, e.pt2));
    Scale(Dot(delta, ev), ev)
  }

  /** The best option found so far: a move (the source's `saved_delta`) and its score. */
  datatype Saved = Saved(value: Option<Vec2>, key: real)

  /** Sliding along `e` ends collision-free. */
  predicate FreeSlide(g: Geometry, start: Vec2, delta: Vec2, radius: real, cands: seq<Segment>, e: Segment) {
    Free(g, Add(start, Slide(g, delta, e)), radius, cands)
  }

  /**
   * The selection loop of `tryResolveCollision` over the colliders `cols`:
   * a collision-free slide replaces the saved one only when strictly longer;
   * nothing is saved at first and the saved length starts at 0.
   */
  function BestSlide(g: Geometry, start: Vec2, delta: Vec2, radius: real, cands: seq<Segment>, cols: seq<Segment>): Saved
    decreases |cols|
  {
    if cols == [] then Saved(None, 0.0)
    else
      var prev := BestSlide(g, start, delta, radius, cands, cols[..|cols| - 1]);
      var t := Slide(g, delta, cols[|cols| - 1]);
      if FreeSlide(g, start, delta, radius, cands, cols[|cols| - 1]) && prev.key < SlideLength(g, delta, cols[|cols| - 1])
      then Saved(Some(t), SlideLength(g, delta, cols[|cols| - 1]))
      else prev
  }

  /** The length of the slide along `e`. */
  function SlideLength(g: Geometry, delta: Vec2, e: Segment): real {
    g.length(Slide(g, delta, e))
  }

  /**
   * The saved length only grows: it bounds every collision-free slide, it
   * stays 0 while nothing is saved and is positive once something is.
   */
  lemma {:induction false} BestSlideMaximal(g: Geometry, start: Vec2, delta: Vec2, radius: real, cands: seq<Segment>, cols: seq<Segment>)
    ensures var r := BestSlide(g, start, delta, radius, cands, cols);
      (r.value.None? ==> r.key == 0.0) && (r.value.Some? ==> r.key > 0.0) &&
      forall j :: 0 <= j < |cols| && FreeSlide(g, start, delta, radius, cands, cols[j]) ==>
        SlideLength(g, delta, cols[j]) <= r.key
    decreases |cols|
  {
    if cols != [] {
      var n := |cols| - 1;
      BestSlideMaximal(g, start, delta, radius, cands, cols[..n]);
      assert forall j :: 0 <= j < n ==> cols[j] == cols[..n][j];
    }
  }

  /**
   * A saved slide is the slide along one of the colliders, collision-free,
   * with the saved length, and strictly longer than every earlier
   * collision-free slide.
   */
  lemma {:induction false} BestSlideWitness(g: Geometry, start: Vec2, delta: Vec2, radius: real, cands: seq<Segment>, cols: seq<Segment>)
    ensures var r := BestSlide(g, start, delta, radius, cands, cols);
      r.value.Some? ==> exists i ::
        0 <= i < |cols| && FreeSlide(g, start, delta, radius, cands, cols[i]) &&
        r.value.value == Slide(g, delta, cols[i]) && r.key == SlideLength(g, delta, cols[i]) &&
        (forall j :: 0 <= j < i && FreeSlide(g, start, delta, radius, cands, cols[j]) ==> SlideLength(g, delta, cols[j]) < r.key)
    decreases |cols|
  {
    if cols != [] {
      var n := |cols| - 1;
      var init := cols[..n];
      var prev := BestSlide(g, start, delta, radius, cands, init);
      var r := BestSlide(g, start, delta, radius, cands, cols);
      if r != prev {
        BestSlideMaximal(g, start, delta, radius, cands, init);
        assert forall j :: 0 <= j < n ==> cols[j] == init[j];
        assert FreeSlide(g, start, delta, radius, cands, cols[n]);
      } else if prev.value.Some? {
        BestSlideWitness(g, start, delta, radius, cands, init);
        var i :| 0 <= i < n && FreeSlide(g, start, delta, radius, cands, init[i]) &&
          (prev.value.value == Slide(g, delta, init[i]) && prev.key == SlideLength(g, delta, init[i]) &&
          forall j :: 0 <= j < i && FreeSlide(g, start, delta, radius, cands, init[j]) ==> SlideLength(g, delta, init[j]) < prev.key);
        assert forall j :: 0 <= j <= i ==> cols[j] == init[j];
      }
    }
  }

  /**
   * What the slide selection picks: the longest collision-free slide, the
   * earliest one among equally long ones, and never one of length 0 or less.
   * Nothing is picked exactly when no collision-free slide has positive length.
   */
  lemma BestSlideChoice(g: Geometry, start: Vec2, delta: Vec2, radius: real, cands: seq<Segment>, cols: seq<Segment>)
    ensures var r := BestSlide(g, start, delta, radius, cands, cols);
      (r.value.None? <==> forall j :: 0 <= j < |cols| && FreeSlide(g, start, delta, radius, cands, cols[j]) ==>
        SlideLength(g, delta, cols[j]) <= 0.0) &&
      (r.value.Some? ==> exists i ::
        0 <= i < |cols| && FreeSlide(g, start, delta, radius, cands, cols[i]) &&
        r.value.value == Slide(g, delta, cols[i]) && r.key == SlideLength(g, delta, cols[i]) && r.key > 0.0 &&
        (forall j :: 0 <= j < |cols| && FreeSlide(g, start, delta, radius, cands, cols[j]) ==> SlideLength(g, delta, cols[j]) <= r.key) &&
        (forall j :: 0 <= j < i && FreeSlide(g, start, delta, radius, cands, cols[j]) ==> SlideLength(g, delta, cols[j]) < r.key))
  {
    BestSlideMaximal(g, start, delta, radius, cands, cols);
    BestSlideWitness(g, start, delta, radius, cands, cols);
  }

  /**
   * `tryResolveCollision`'s result: the move itself when nothing collides at
   * its destination, otherwise the selected slide (`None` when there is none).
   */
  function TryResolve(g: Geometry, start: Vec2, delta: Vec2, radius: real, cands: seq<Segment>): Option<Vec2> {
    var cols := Colliding(g, Add(start, delta), radius, cands);
    if cols == [] then Some(delta) else BestSlide(g, start, delta, radius, cands, cols).value
  }

  /**
   * `tryResolveCollision`: find the colliders at the destination; with none
   * return the move, otherwise try sliding along each and keep the longest
   * collision-free slide.
   */
  method TryResolveCollision(g: Geometry, start: Vec2, delta: Vec2, radius: real, cands: seq<Segment>)
    returns (r: Option<Vec2>)
    ensures r == TryResolve(g, start, delta, radius, cands)
  {
    var cols := CheckCollision(g, start, delta, radius, cands);
    if |cols| > 0 {
      var savedDelta: Option<Vec2> := None;
      var savedLength := 0.0;
      var i := 0;
      while i < |cols|
        invariant 0 <= i <= |cols|
        invariant Saved(savedDelta, savedLength) == BestSlide(g, start, delta, radius, cands, cols[..i])
      {
        assert cols[..i + 1][..i] == cols[..i];
        var edge := cols[i];
        var edgeVector := g.normalize(Sub(edge.pt1, edge.pt2));
        var tryDelta := Scale(Dot(delta, edgeVector), edgeVector);
        var tryLength := g.length(tryDelta);
        var tryColliders := CheckCollision(g, start, tryDelta, radius, cands);
        if |tryColliders| == 0 {
          if savedLength < tryLength {
            savedLength := tryLength;
            savedDelta := Some(tryDelta);
          }
        }
        i := i + 1;
      }
      assert cols[..|cols|] == cols;
      r := savedDelta;
    } else {
      r := Some(delta);
    }
  }

  /** `nearestPointAtLine(lineFromTwoPoints(e.pt1, e.pt2), start)`. */
  function NearestPoint(g: Geometry, e: Segment, start: Vec2): Vec2 {
    g.nearest(M.LineFromTwoPoints(e.pt1, e.pt2), start)
  }

  /** How far the line through `e` is from `start`. */
  function LineDistance(g: Geometry, e: Segment, start: Vec2): real {
    Distance(g, NearestPoint(g, e, start), start)
  }

  /**
   * The selection loop of `tryResolveCollisionFallback`: among the colliders
   * whose line lies strictly within `radius` of `start`, keep the nearest
   * point of the one whose line is farthest; a later one replaces the saved
   * one only when strictly farther.
   */
  function DeepestLine(g: Geometry, start: Vec2, radius: real, cols: seq<Segment>): Saved
    decreases |cols|
  {
    if cols == [] then Saved(None, 0.0)
    else
      var prev := DeepestLine(g, start, radius, cols[..|cols| - 1]);
      var e := cols[|cols| - 1];
      var d := LineDistance(g, e, start);
      if d < radius && (prev.value.None? || prev.key < d) then Saved(Some(NearestPoint(g, e, start)), d)
      else prev
  }

  /**
   * What the fallback selection picks: nothing exactly when no collider's
   * line is within `radius`; otherwise the nearest point on the line of a
   * collider within `radius` whose distance is the largest such, the earliest
   * among equally far ones.
   */
  lemma {:induction false} DeepestLineChoice(g: Geometry, start: Vec2, radius: real, cols: seq<Segment>)
    ensures var r := DeepestLine(g, start, radius, cols);
      (r.value.None? <==> forall j :: 0 <= j < |cols| ==> LineDistance(g, cols[j], start) >= radius) &&
      (r.value.Some? ==> exists i ::
        0 <= i < |cols| &&
        r.value.value == NearestPoint(g, cols[i], start) && r.key == LineDistance(g, cols[i], start) && r.key < radius &&
        (forall j :: 0 <= j < |cols| && LineDistance(g, cols[j], start) < radius ==> LineDistance(g, cols[j], start) <= r.key) &&
        (forall j :: 0 <= j < i && LineDistance(g, cols[j], start) < radius ==> LineDistance(g, cols[j], start) < r.key))
    decreases |cols|
  {
    if cols != [] {
      var n := |cols| - 1;
      var init := cols[..n];
      DeepestLineChoice(g, start, radius, init);
      var prev := DeepestLine(g, start, radius, init);
      var r := DeepestLine(g, start, radius, cols);
      assert forall j :: 0 <= j < n ==> cols[j] == init[j];
      if r != prev {
        assert r.value.value == NearestPoint(g, cols[n], start);
      } else if prev.value.Some? {
        var i :| 0 <= i < n &&
          (prev.value.value == NearestPoint(g, init[i], start) && prev.key == LineDistance(g, init[i], start) && prev.key < radius &&
          (forall j :: 0 <= j < n && LineDistance(g, init[j], start) < radius ==> LineDistance(g, init[j], start) <= prev.key) &&
          (forall j :: 0 <= j < i && LineDistance(g, init[j], start) < radius ==> LineDistance(g, init[j], start) < prev.key));
        assert cols[i] == init[i];
      }
    }
  }

  /** The push away from the line: `|delta|` along `normalize(start - nearest)`. */
  function PushAway(g: Geometry, start: Vec2, nearest: Vec2, delta: Vec2): Vec2 {
    Scale(g.length(delta), g.normalize(Sub(start, nearest)))
  }

  /**
   * `tryResolveCollisionFallback`'s result: push away from the selected line
   * when that push ends collision-free, otherwise nothing.
   */
  function Fallback(g: Geometry, start: Vec2, delta: Vec2, radius: real, cands: seq<Segment>): Option<Vec2> {
    var cols := Colliding(g, Add(start, delta), radius, cands);
    var deepest := DeepestLine(g, start, radius, cols);
    if deepest.value.None? then None
    else
      var t := PushAway(g, start, deepest.value.value, delta);
      if Free(g, Add(start, t), radius, cands) then Some(t) else None
  }

  /** `tryResolveCollisionFallback`: select the line, then try the push. */
  method TryResolveCollisionFallback(g: Geometry, start: Vec2, delta: Vec2, radius: real, cands: seq<Segment>)
    returns (r: Option<Vec2>)
    ensures r == Fallback(g, start, delta, radius, cands)
  {
    var savedNearest: Option<Vec2> := None;
    var savedDist := 0.0;
    var cols := CheckCollision(g, start, delta, radius, cands);
    var i := 0;
    while i < |cols|
      invariant 0 <= i <= |cols|
      invariant Saved(savedNearest, savedDist) == DeepestLine(g, start, radius, cols[..i])
    {
      assert cols[..i + 1][..i] == cols[..i];
      var edge := cols[i];
      var nearest := g.nearest(M.LineFromTwoPoints(edge.pt1, edge.pt2), start);
      var dist := Distance(g, nearest, start);
      if dist < radius && (savedNearest.None? || savedDist < dist) {
        savedNearest := Some(nearest);
        savedDist := dist;
      }
      i := i + 1;
    }
    assert cols[..|cols|] == cols;
    r := None;
    if savedNearest.Some? {
      var edgeNormal := g.normalize(Sub(start, savedNearest.value));
      var tryDelta := Scale(g.length(delta), edgeNormal);
      var tryColliders := CheckCollision(g, start, tryDelta, radius, cands);
      if |tryColliders| == 0 {
        r := Some(tryDelta);
      }
    }
  }

  /** One sub-step of `resolveCollision`: the slide step, and the fallback only when it gives nothing. */
  function Step(g: Geometry, pos: Vec2, step: Vec2, radius: real, cands: seq<Segment>): Option<Vec2> {
    match TryResolve(g, pos, step, radius, cands)
    case Some(t) => Some(t)
    case None => Fallback(g, pos, step, radius, cands)
  }

  /**
   * The position and the accumulated move after `k` sub-steps from `start`:
   * an applied sub-step moves both, a sub-step with no option changes neither.
   */
  function Steps(g: Geometry, start: Vec2, step: Vec2, radius: real, cands: seq<Segment>, k: nat): (Vec2, Vec2) {
    if k == 0 then (start, Vec2(0.0, 0.0))
    else
      var (pos, total) := Steps(g, start, step, radius, cands, k - 1);
      match Step(g, pos, step, radius, cands)
      case None => (pos, total)
      case Some(t) => (Add(pos, t), Add(total, t))
  }

  /** `resolveCollision` takes two sub-steps, each of half the move. */
  const NumSteps: nat := 2

  /**
   * `getPotentialColliders`: the edge leaves the tree query returns for the
   * square of half-side `radius + |delta|` around `start`.
   */
  function PotentialColliders(g: Geometry, root: T.Node, start: Vec2, delta: Vec2, radius: real): seq<Segment> {
    var reach := radius + g.length(delta);
    T.EdgeSegments(T.Collected(T.CollectCollider, T.Traverse(root, Some(BoxAround(start, reach)))))
  }

  /** `resolveCollision`'s result: the sum of the applied sub-steps. */
  function Resolve(g: Geometry, root: T.Node, start: Vec2, delta: Vec2, radius: real): Vec2 {
    var cands := PotentialColliders(g, root, start, delta, radius);
    Steps(g, start, Scale(1.0 / NumSteps as real, delta), radius, cands, NumSteps).1
  }

  /**
   * `resolveCollision`: collect the candidates once, then take the sub-steps,
   * each starting where the previous applied one ended.
   */
  method ResolveCollision(g: Geometry, root: T.Node, start: Vec2, delta: Vec2, radius: real)
    returns (totalDelta: Vec2)
    ensures totalDelta == Resolve(g, root, start, delta, radius)
  {
    var cands := PotentialColliders(g, root, start, delta, radius);
    var position := start;
    var stepDelta := Scale(1.0 / NumSteps as real, delta);
    totalDelta := Vec2(0.0, 0.0);
    var i := 0;
    while i < NumSteps
      invariant 0 <= i <= NumSteps
      invariant (position, totalDelta) == Steps(g, start, stepDelta, radius, cands, i)
    {
      var tryDelta := TryResolveCollision(g, position, stepDelta, radius, cands);
      if tryDelta.None? {
        tryDelta := TryResolveCollisionFallback(g, position, stepDelta, radius, cands);
      }
      if tryDelta.Some? {
        position := Add(position, tryDelta.value);
        totalDelta := Add(totalDelta, tryDelta.value);
      }
      i := i + 1;
    }
  }

  /** A sub-step's result is always collision-free at its destination. */
  lemma StepIsFree(g: Geometry, pos: Vec2, step: Vec2, radius: real, cands: seq<Segment>)
    ensures var r := Step(g, pos, step, radius, cands);
      r.Some? ==> Free(g, Add(pos, r.value), radius, cands)
  {
    var cols := Colliding(g, Add(pos, step), radius, cands);
    if cols != [] {
      BestSlideChoice(g, pos, step, radius, cands, cols);
    }
  }

  /** The position stays `start` plus the accumulated move. */
  lemma {:induction false} PositionIsStartPlusTotal(g: Geometry, start: Vec2, step: Vec2, radius: real, cands: seq<Segment>, k: nat)
    ensures var (pos, total) := Steps(g, start, step, radius, cands, k); pos == Add(start, total)
  {
    if k > 0 {
      PositionIsStartPlusTotal(g, start, step, radius, cands, k - 1);
    }
  }

  /**
   * Every position the sub-steps stop at is collision-free, given that the
   * start is.
   */
  lemma {:induction false} StepsStayFree(g: Geometry, start: Vec2, step: Vec2, radius: real, cands: seq<Segment>, k: nat)
    requires Free(g, start, radius, cands)
    ensures Free(g, Steps(g, start, step, radius, cands, k).0, radius, cands)
  {
    if k > 0 {
      StepsStayFree(g, start, step, radius, cands, k - 1);
      var (pos, total) := Steps(g, start, step, radius, cands, k - 1);
      StepIsFree(g, pos, step, radius, cands);
    }
  }

  /** When both half-step destinations of the straight move are free, the whole move is made. */
  lemma UnobstructedMoveIsKept(g: Geometry, root: T.Node, start: Vec2, delta: Vec2, radius: real)
    requires var cands := PotentialColliders(g, root, start, delta, radius);
      var half := Scale(1.0 / 2.0, delta);
      Free(g, Add(start, half), radius, cands) && Free(g, Add(Add(start, half), half), radius, cands)
    ensures Resolve(g, root, start, delta, radius) == delta
  {
    var cands := PotentialColliders(g, root, start, delta, radius);
    var half := Scale(1.0 / 2.0, delta);
    assert Steps(g, start, half, radius, cands, 1) == (Add(start, half), Add(Vec2(0.0, 0.0), half));
    assert Add(Vec2(0.0, 0.0), half) == half;
    assert Add(half, half) == delta;
  }

  /** Every edge leaf whose box strictly overlaps the reach square is a candidate, and only edge leaves are. */
  lemma PotentialCollidersAreNearbyEdges(g: Geometry, root: T.Node, start: Vec2, delta: Vec2, radius: real)
    requires T.WellFormed(root) && root.Branch?
    ensures var box := BoxAround(start, radius + g.length(delta));
      var cands := PotentialColliders(g, root, start, delta, radius);
      (forall l :: l in T.Leaves(root) && l.Edge? && Overlaps(l.box, box) ==> Segment(l.pt1, l.pt2) in cands) &&
      (forall e :: e in cands ==> exists l :: l in T.Leaves(root) && l.Edge? && Overlaps(l.box, box) && e == Segment(l.pt1, l.pt2))
  {
    var box := BoxAround(start, radius + g.length(delta));
    var visited := T.Traverse(root, Some(box));
    var edges := T.Collected(T.CollectCollider, visited);
    var cands := PotentialColliders(g, root, start, delta, radius);
    assert cands == T.EdgeSegments(edges);
    T.QueryIsOverlappingLeaves(root, box);
    T.CollectedMembers(T.CollectCollider, visited);
    forall l | l in T.Leaves(root) && l.Edge? && Overlaps(l.box, box)
      ensures Segment(l.pt1, l.pt2) in cands
    {
      assert l in visited;
      assert l in edges;
    }
    forall e | e in cands
      ensures exists l :: l in T.Leaves(root) && l.Edge? && Overlaps(l.box, box) && e == Segment(l.pt1, l.pt2)
    {
      var l :| l in edges && l.Edge? && e == Segment(l.pt1, l.pt2);
      assert l in visited;
    }
  }

  /** `(a . b)^2 <= (a . a)(b . b)`. */
  lemma CauchySchwarz(a: Vec2, b: Vec2)
    ensures Dot(a, b) * Dot(a, b) <= Dot(a, a) * Dot(b, b)
  {
    var w := a.x * b.y - a.y * b.x;
    assert Dot(a, a) * Dot(b, b) - Dot(a, b) * Dot(a, b) == w * w;
  }

  lemma SquareStrict(x: real, y: real)
    requires 0.0 <= y < x
    ensures y * y < x * x
  {
    assert y * (x - y) >= 0.0;
    assert x * (x - y) > 0.0;
  }

  lemma SquareMonotone(x: real, y: real)
    requires 0.0 <= x && 0.0 <= y && x * x <= y * y
    ensures x <= y
  {
    if x > y {
      SquareStrict(x, y);
      assert false;
    }
  }

  lemma ScaleDot(k: real, v: Vec2)
    ensures Dot(Scale(k, v), Scale(k, v)) == (k * k) * Dot(v, v)
  {
  }

  /** Scaling a vector of norm at most one by `k` gives a vector of norm at most `|k|`. */
  lemma ScaledUnitBound(g: Geometry, k: real, v: Vec2)
    requires Sound(g) && Dot(v, v) <= 1.0
    ensures g.length(Scale(k, v)) * g.length(Scale(k, v)) <= k * k
  {
    ScaleDot(k, v);
    var kk := k * k;
    assert kk >= 0.0;
    assert kk * Dot(v, v) <= kk * 1.0;
  }

  /** A slide is never longer than the move it comes from. */
  lemma SlideNoLonger(g: Geometry, delta: Vec2, e: Segment)
    requires Sound(g)
    ensures SlideLength(g, delta, e) <= g.length(delta)
  {
    var ev := g.normalize(Sub(e.pt1, e.pt2));
    var k := Dot(delta, ev);
    var t := Slide(g, delta, e);
    ScaledUnitBound(g, k, ev);
    CauchySchwarz(delta, ev);
    var dd := Dot(delta, delta);
    assert dd >= 0.0;
    assert dd * Dot(ev, ev) <= dd * 1.0;
    assert g.length(t) * g.length(t) <= g.length(delta) * g.length(delta);
    SquareMonotone(g.length(t), g.length(delta));
  }

  /** The push of the fallback is never longer than the move it replaces. */
  lemma PushNoLonger(g: Geometry, start: Vec2, nearest: Vec2, delta: Vec2)
    requires Sound(g)
    ensures g.length(PushAway(g, start, nearest, delta)) <= g.length(delta)
  {
    var t := PushAway(g, start, nearest, delta);
    ScaledUnitBound(g, g.length(delta), g.normalize(Sub(start, nearest)));
    SquareMonotone(g.length(t), g.length(delta));
  }

  /** No sub-step moves farther than the sub-step asked for. */
  lemma StepNoLonger(g: Geometry, pos: Vec2, step: Vec2, radius: real, cands: seq<Segment>)
    requires Sound(g)
    ensures var r := Step(g, pos, step, radius, cands);
      r.Some? ==> g.length(r.value) <= g.length(step)
  {
    var cols := Colliding(g, Add(pos, step), radius, cands);
    var slide := BestSlide(g, pos, step, radius, cands, cols);
    if cols != [] && slide.value.Some? {
      BestSlideWitness(g, pos, step, radius, cands, cols);
      var i :| 0 <= i < |cols| && slide.value.value == Slide(g, step, cols[i]);
      SlideNoLonger(g, step, cols[i]);
    } else if cols != [] {
      var deepest := DeepestLine(g, pos, radius, cols);
      if deepest.value.Some? {
        PushNoLonger(g, pos, deepest.value.value, step);
      }
    }
  }

  /** The real-number core of the triangle inequality, with `la`, `lb`, `lab` the three lengths. */
  lemma TriangleReals(la: real, lb: real, lab: real, aa: real, bb: real, ab: real)
    requires 0.0 <= la && 0.0 <= lb && 0.0 <= lab
    requires la * la == aa && lb * lb == bb && ab * ab <= aa * bb
    requires lab * lab == aa + 2.0 * ab + bb
    ensures lab <= la + lb
  {
    var p := la * lb;
    assert p * p == aa * bb;
    assert p >= 0.0;
    if ab > p {
      SquareMonotone(ab, p);
    }
    assert (la + lb) * (la + lb) == aa + 2.0 * p + bb;
    SquareMonotone(lab, la + lb);
  }

  lemma DotOfSum(a: Vec2, b: Vec2)
    ensures Dot(Add(a, b), Add(a, b)) == Dot(a, a) + 2.0 * Dot(a, b) + Dot(b, b)
  {
  }

  lemma LengthSquared(g: Geometry, v: Vec2)
    requires Sound(g)
    ensures g.length(v) >= 0.0 && g.length(v) * g.length(v) == Dot(v, v)
  {
  }

  /** `|a + b| <= |a| + |b|`. */
  lemma TriangleInequality(g: Geometry, a: Vec2, b: Vec2)
    requires Sound(g)
    ensures g.length(Add(a, b)) <= g.length(a) + g.length(b)
  {
    LengthSquared(g, a);
    LengthSquared(g, b);
    LengthSquared(g, Add(a, b));
    TriangleFromSquares(g.length(a), g.length(b), g.length(Add(a, b)), a, b);
  }

  /** The triangle inequality for any three non-negative reals whose squares are the three norms. */
  lemma TriangleFromSquares(la: real, lb: real, lab: real, a: Vec2, b: Vec2)
    requires 0.0 <= la && 0.0 <= lb && 0.0 <= lab
    requires la * la == Dot(a, a) && lb * lb == Dot(b, b) && lab * lab == Dot(Add(a, b), Add(a, b))
    ensures lab <= la + lb
  {
    CauchySchwarz(a, b);
    DotOfSum(a, b);
    TriangleReals(la, lb, lab, Dot(a, a), Dot(b, b), Dot(a, b));
  }

  /** Under a sound geometry the zero vector has length 0. */
  lemma ZeroLength(g: Geometry)
    requires Sound(g)
    ensures g.length(Vec2(0.0, 0.0)) == 0.0
  {
    SquareMonotone(g.length(Vec2(0.0, 0.0)), 0.0);
  }

  /** Under a sound geometry, `|k v| = k |v|` for `k >= 0`. */
  lemma ScaleLength(g: Geometry, k: real, v: Vec2)
    requires Sound(g) && k >= 0.0
    ensures g.length(Scale(k, v)) == k * g.length(v)
  {
    var l, lv := g.length(Scale(k, v)), g.length(v);
    ScaleDot(k, v);
    assert l * l == (k * lv) * (k * lv);
    SquareMonotone(l, k * lv);
    SquareMonotone(k * lv, l);
  }

  /** The length of `k` moves of length `l` laid end to end. */
  function Repeated(k: nat, l: real): real
  {
    if k == 0 then 0.0 else Repeated(k - 1, l) + l
  }

  /** One more sub-step adds at most one sub-step's length to the accumulated move. */
  lemma StepAddsAtMostStep(g: Geometry, start: Vec2, step: Vec2, radius: real, cands: seq<Segment>, k: nat)
    requires Sound(g) && k > 0
    ensures g.length(Steps(g, start, step, radius, cands, k).1) <=
      g.length(Steps(g, start, step, radius, cands, k - 1).1) + g.length(step)
  {
    var (pos, total) := Steps(g, start, step, radius, cands, k - 1);
    var r := Step(g, pos, step, radius, cands);
    LengthSquared(g, step);
    if r.Some? {
      StepNoLonger(g, pos, step, radius, cands);
      TriangleInequality(g, total, r.value);
    }
  }

  /** Before any sub-step nothing has moved. */
  lemma StepsZero(g: Geometry, start: Vec2, step: Vec2, radius: real, cands: seq<Segment>)
    ensures Steps(g, start, step, radius, cands, 0) == (start, Vec2(0.0, 0.0))
  {
  }

  lemma ZeroStepsNoMove(g: Geometry, start: Vec2, step: Vec2, radius: real, cands: seq<Segment>)
    requires Sound(g)
    ensures g.length(Steps(g, start, step, radius, cands, 0).1) == 0.0
  {
    StepsZero(g, start, step, radius, cands);
    ZeroLength(g);
  }

  /** After `k` sub-steps the accumulated move is at most `k` sub-steps long. */
  lemma {:induction false} StepsNoLonger(g: Geometry, start: Vec2, step: Vec2, radius: real, cands: seq<Segment>, k: nat)
    requires Sound(g)
    ensures g.length(Steps(g, start, step, radius, cands, k).1) <= Repeated(k, g.length(step))
  {
    if k == 0 {
      ZeroStepsNoMove(g, start, step, radius, cands);
    } else {
      StepsNoLonger(g, start, step, radius, cands, k - 1);
      StepAddsAtMostStep(g, start, step, radius, cands, k);
    }
  }

  /** `resolveCollision` never moves the entity farther than it asked to go. */
  lemma ResolveNoLonger(g: Geometry, root: T.Node, start: Vec2, delta: Vec2, radius: real)
    requires Sound(g)
    ensures g.length(Resolve(g, root, start, delta, radius)) <= g.length(delta)
  {
    var cands := PotentialColliders(g, root, start, delta, radius);
    var step := Scale(1.0 / NumSteps as real, delta);
    StepsNoLonger(g, start, step, radius, cands, NumSteps);
    ScaleLength(g, 1.0 / NumSteps as real, delta);
    assert Repeated(1, g.length(step)) == g.length(step);
    assert Repeated(NumSteps, g.length(step)) == g.length(step) + g.length(step);
  }
}
