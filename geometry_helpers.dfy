/** Polygon helpers of the geometry utilities: point-in-polygon, bounding box, signed area,
  * containment nesting and conversion of legacy polygons to flat coordinate nodes.
  *
  * Coordinates are reals. The tolerance tests of the point type (`almostEqual`, `onSegment`,
  * `interpolateX`) work in floating point and are taken as parameters (`Tolerance`).
  */
module GeometryHelpers {
  import opened Wrappers

  datatype Point = Point(x: real, y: real)

  /** The floating-point tests of the point type: `a.almostEqual(b)`, `p.onSegment(a, b)` and
    * `p.interpolateX(a, b)`. */
  datatype Tolerance = Tolerance(
    almostEqual: (Point, Point) -> bool,
    onSegment: (Point, Point, Point) -> bool,
    interpolateX: (Point, Point, Point) -> real)

  /** `cycleIndex(i, n, -1)`: the index before `i`, wrapping around. */
  function PrevIndex(i: nat, n: nat): (r: nat)
    requires i < n
    ensures r < n && (r + 1) % n == i
  {
    if i == 0 then
      assert (n - 1 + 1) % n == n % n == 0;
      n - 1
    else
      assert (i - 1 + 1) % n == i % n == i;
      i - 1
  }

  // ---------------------------------------------------------------- pointInPolygon

  /** The point lies on vertex `i` or on the edge that ends there. */
  predicate OnBoundary(point: Point, polygon: seq<Point>, tol: Tolerance, i: nat)
    requires i < |polygon|
  {
    var prev := polygon[PrevIndex(i, |polygon|)];
    tol.almostEqual(polygon[i], point) || tol.onSegment(point, polygon[i], prev)
  }

  /** The edge ending at vertex `i` is not degenerate and the horizontal ray from the point to
    * the left of it crosses that edge. */
  predicate Crosses(point: Point, polygon: seq<Point>, tol: Tolerance, i: nat)
    requires i < |polygon|
  {
    var prev := polygon[PrevIndex(i, |polygon|)];
    !tol.almostEqual(polygon[i], prev) &&
    (polygon[i].y > point.y) != (prev.y > point.y) &&
    point.x < tol.interpolateX(point, prev, polygon[i])
  }

  /** The number of edges among the first `k` that the ray crosses. */
  function CrossingCount(point: Point, polygon: seq<Point>, tol: Tolerance, k: nat): (r: nat)
    requires k <= |polygon|
    ensures r <= k
  {
    if k == 0 then 0
    else CrossingCount(point, polygon, tol, k - 1) + (if Crosses(point, polygon, tol, k - 1) then 1 else 0)
  }

  /** The result of `pointInPolygon`: null (None) for a missing polygon, one with fewer than three
    * points, or a point on its boundary; otherwise whether the ray crosses an odd number of edges. */
  function PointInPolygonResult(point: Point, polygon: Option<seq<Point>>, tol: Tolerance): Option<bool>
  {
    if polygon.None? || |polygon.value| < 3 then None
    else if exists i :: 0 <= i < |polygon.value| && OnBoundary(point, polygon.value, tol, i) then None
    else Some(CrossingCount(point, polygon.value, tol, |polygon.value|) % 2 == 1)
  }

  /** The state of the scan after `i` vertices: none of them is on the boundary and `inside` is
    * the parity of the crossings so far. */
  predicate Scanned(point: Point, pts: seq<Point>, tol: Tolerance, i: nat, inside: bool)
  {
    i <= |pts| && (forall k :: 0 <= k < i ==> !OnBoundary(point, pts, tol, k)) &&
    inside == (CrossingCount(point, pts, tol, i) % 2 == 1)
  }

  /** Even-odd point-in-polygon test. */
  method PointInPolygon(point: Point, polygon: Option<seq<Point>>, tol: Tolerance) returns (r: Option<bool>)
    ensures polygon.None? || |polygon.value| < 3 ==> r == None
    ensures polygon.Some? && |polygon.value| >= 3 ==>
      (r == None <==> exists i :: 0 <= i < |polygon.value| && OnBoundary(point, polygon.value, tol, i))
    ensures polygon.Some? && r.Some? ==>
      r.value == (CrossingCount(point, polygon.value, tol, |polygon.value|) % 2 == 1)
    ensures r == PointInPolygonResult(point, polygon, tol)
  {
    if polygon.None? || |polygon.value| < 3 {
      return None;
    }
    var pts := polygon.value;
    var pointCount := |pts|;
    var inside := false;
    var i := 0;
    while i < pointCount
      invariant Scanned(point, pts, tol, i, inside)
    {
      var currPoint := pts[i];
      var prevPoint := pts[PrevIndex(i, pointCount)];
      if tol.almostEqual(currPoint, point) || tol.onSegment(point, currPoint, prevPoint) {
        assert OnBoundary(point, pts, tol, i);
        return None;
      }
      if tol.almostEqual(currPoint, prevPoint) {
        i := i + 1;
        continue;
      }
      if (currPoint.y > point.y) != (prevPoint.y > point.y) && point.x < tol.interpolateX(point, prevPoint, currPoint) {
        inside := !inside;
      }
      i := i + 1;
    }
    return Some(inside);
  }

  // ---------------------------------------------------------------- getPolygonBounds

  datatype BoundRect = BoundRect(x: real, y: real, width: real, height: real)

  /** The bounding box: null for a missing polygon or fewer than three points; otherwise `x`, `y`
    * are the least coordinates and `width`, `height` the extents. */
  method GetPolygonBounds(polygon: Option<seq<Point>>) returns (r: Option<BoundRect>)
    ensures polygon.None? || |polygon.value| < 3 <==> r.None?
    ensures r.Some? ==>
      var pts := polygon.value; var b := r.value;
      b.width >= 0.0 && b.height >= 0.0 &&
      (forall i :: 0 <= i < |pts| ==> b.x <= pts[i].x <= b.x + b.width && b.y <= pts[i].y <= b.y + b.height) &&
      (exists i :: 0 <= i < |pts| && pts[i].x == b.x) && (exists i :: 0 <= i < |pts| && pts[i].y == b.y) &&
      (exists i :: 0 <= i < |pts| && pts[i].x == b.x + b.width) &&
      (exists i :: 0 <= i < |pts| && pts[i].y == b.y + b.height)
  {
    if polygon.None? || |polygon.value| < 3 {
      return None;
    }
    var pts := polygon.value;
    var pointCount := |pts|;
    var min := pts[0];
    var size := pts[0];
    var i := 1;
    while i < pointCount
      invariant 1 <= i <= pointCount
      invariant forall k :: 0 <= k < i ==> min.x <= pts[k].x <= size.x && min.y <= pts[k].y <= size.y
      invariant exists k :: 0 <= k < i && pts[k].x == min.x
      invariant exists k :: 0 <= k < i && pts[k].y == min.y
      invariant exists k :: 0 <= k < i && pts[k].x == size.x
      invariant exists k :: 0 <= k < i && pts[k].y == size.y
    {
      min := Point(if pts[i].x < min.x then pts[i].x else min.x, if pts[i].y < min.y then pts[i].y else min.y);
      size := Point(if pts[i].x > size.x then pts[i].x else size.x, if pts[i].y > size.y then pts[i].y else size.y);
      i := i + 1;
    }
    size := Point(size.x - min.x, size.y - min.y);
    return Some(BoundRect(min.x, min.y, size.x, size.y));
  }

  // ---------------------------------------------------------------- polygonArea

  /** The shoelace term of the edge ending at vertex `i`. */
  function ShoelaceTerm(polygon: seq<Point>, i: nat): real
    requires i < |polygon|
  {
    EdgeTerm(polygon[PrevIndex(i, |polygon|)], polygon[i])
  }

  function EdgeTerm(prev: Point, curr: Point): real
  {
    (prev.x + curr.x) * (prev.y - curr.y)
  }

  /** Traversing an edge backwards negates its term. */
  lemma EdgeTermSwap(prev: Point, curr: Point)
    ensures EdgeTerm(curr, prev) == -EdgeTerm(prev, curr)
  {
  }

  /** The shoelace terms of all edges, in vertex order. */
  function ShoelaceTerms(polygon: seq<Point>): (r: seq<real>)
    ensures |r| == |polygon|
    ensures forall i :: 0 <= i < |r| ==> r[i] == ShoelaceTerm(polygon, i)
  {
    seq(|polygon|, i requires 0 <= i < |polygon| => ShoelaceTerm(polygon, i))
  }

  function Sum(s: seq<real>): real
  {
    if s == [] then 0.0 else s[0] + Sum(s[1..])
  }

  lemma {:induction false} SumAppend(a: seq<real>, b: seq<real>)
    ensures Sum(a + b) == Sum(a) + Sum(b)
  {
    if a == [] {
      assert a + b == b;
    } else {
      assert (a + b)[0] == a[0];
      assert (a + b)[1..] == a[1..] + b;
      SumAppend(a[1..], b);
    }
  }

  function Reverse<T>(s: seq<T>): (r: seq<T>)
    ensures |r| == |s|
    ensures forall i :: 0 <= i < |s| ==> r[i] == s[|s| - 1 - i]
  {
    seq(|s|, i requires 0 <= i < |s| => s[|s| - 1 - i])
  }

  function Negate(s: seq<real>): (r: seq<real>)
    ensures |r| == |s|
    ensures forall i :: 0 <= i < |s| ==> r[i] == -s[i]
  {
    seq(|s|, i requires 0 <= i < |s| => -s[i])
  }

  lemma {:induction false} SumReverse(s: seq<real>)
    ensures Sum(Reverse(s)) == Sum(s)
  {
    if s != [] {
      assert Reverse(s) == Reverse(s[1..]) + [s[0]];
      SumReverse(s[1..]);
      SumAppend(Reverse(s[1..]), [s[0]]);
      assert Sum([s[0]]) == s[0];
    }
  }

  lemma {:induction false} SumNegate(s: seq<real>)
    ensures Sum(Negate(s)) == -Sum(s)
  {
    if s != [] {
      assert Negate(s)[1..] == Negate(s[1..]);
      SumNegate(s[1..]);
    }
  }

  /** The signed area: half the wrap-around shoelace sum. */
  function Area(polygon: seq<Point>): real
  {
    0.5 * Sum(ShoelaceTerms(polygon))
  }

  /** `polygonArea`: accumulates the shoelace terms in vertex order and halves the sum. */
  method PolygonArea(polygon: seq<Point>) returns (r: real)
    ensures r == Area(polygon)
    ensures polygon == [] ==> r == 0.0
  {
    var pointCount := |polygon|;
    var result := 0.0;
    var i := 0;
    while i < pointCount
      invariant 0 <= i <= pointCount
      invariant result == Sum(ShoelaceTerms(polygon)[..i])
    {
      var prevPoint := polygon[PrevIndex(i, pointCount)];
      var currPoint := polygon[i];
      ghost var terms := ShoelaceTerms(polygon);
      SumAppend(terms[..i], [terms[i]]);
      assert terms[..i + 1] == terms[..i] + [terms[i]];
      assert terms[i] == EdgeTerm(prevPoint, currPoint);
      assert Sum([terms[i]]) == terms[i];
      result := result + (prevPoint.x + currPoint.x) * (prevPoint.y - currPoint.y);
      i := i + 1;
    }
    assert ShoelaceTerms(polygon)[..pointCount] == ShoelaceTerms(polygon);
    return 0.5 * result;
  }

  /** The shoelace term of the reversed polygon at `i` is the negated term of the original edge
    * it retraces. */
  lemma ReversedTerm(polygon: seq<Point>, i: nat)
    requires i < |polygon|
    ensures ShoelaceTerm(Reverse(polygon), i) ==
      -ShoelaceTerm(polygon, if i == 0 then 0 else |polygon| - i)
  {
    var n := |polygon|;
    var q := Reverse(polygon);
    if i == 0 {
      assert q[n - 1] == polygon[0] && q[0] == polygon[n - 1];
      EdgeTermSwap(polygon[n - 1], polygon[0]);
    } else {
      assert PrevIndex(n - i, n) == n - i - 1;
      assert q[i - 1] == polygon[n - i] && q[i] == polygon[n - i - 1];
      EdgeTermSwap(polygon[n - i - 1], polygon[n - i]);
    }
  }

  /** Reversing the vertex order negates the area: its sign encodes the winding direction. */
  lemma AreaOfReversed(polygon: seq<Point>)
    ensures Area(Reverse(polygon)) == -Area(polygon)
  {
    var n := |polygon|;
    if n > 0 {
      var a := ShoelaceTerms(polygon);
      var b := ShoelaceTerms(Reverse(polygon));
      var tail := Negate(a[1..]);
      var c := [-a[0]] + Reverse(tail);
      forall i | 0 <= i < n
        ensures b[i] == c[i]
      {
        ReversedTerm(polygon, i);
      }
      assert b == c;
      SumReverse(tail);
      SumNegate(a[1..]);
      assert Sum(a) == a[0] + Sum(a[1..]);
      assert Sum(c) == -a[0] + Sum(Reverse(tail)) by {
        SumAppend([-a[0]], Reverse(tail));
      }
    }
  }

  // ---------------------------------------------------------------- nestPolygons

  /** A polygon of the legacy tree: its outline, the optional `source` and `rotation` numbers and
    * the optional `children` array, which nesting creates and fills in place. */
  class Polygon {
    const points: seq<Point>
    const source: Option<real>
    const rotation: Option<real>
    var children: Option<seq<Polygon>>

    constructor(points: seq<Point>, source: Option<real>, rotation: Option<real>)
      ensures this.points == points && this.source == source && this.rotation == rotation
      ensures children == None
    {
      this.points := points;
      this.source := source;
      this.rotation := rotation;
      children := None;
    }
  }

  predicate HasFirstPoints(polygons: seq<Polygon>)
  {
    forall i :: 0 <= i < |polygons| ==> |polygons[i].points| > 0
  }

  /** Every polygon of `universe` has a first vertex and lists only children from `universe`. */
  ghost predicate Closed(universe: set<Polygon>)
    reads universe
  {
    forall p :: p in universe ==>
      |p.points| > 0 && (p.children.Some? ==> forall c :: c in p.children.value ==> c in universe)
  }

  /** The first vertex of polygon `i` lies strictly inside polygon `j`, a different entry. */
  predicate Inside(polygons: seq<Polygon>, tol: Tolerance, i: nat, j: nat)
    requires HasFirstPoints(polygons) && i < |polygons| && j < |polygons|
  {
    j != i && PointInPolygonResult(polygons[i].points[0], Some(polygons[j].points), tol) == Some(true)
  }

  /** The lowest index from `from` on of a polygon containing polygon `i`, or -1. */
  function FirstContainer(polygons: seq<Polygon>, tol: Tolerance, i: nat, from: nat): (r: int)
    requires HasFirstPoints(polygons) && i < |polygons| && from <= |polygons|
    ensures -1 <= r < |polygons|
    ensures r >= 0 ==> from <= r
    decreases |polygons| - from
  {
    if from == |polygons| then -1
    else if Inside(polygons, tol, i, from) then from
    else FirstContainer(polygons, tol, i, from + 1)
  }

  /** The container found is the lowest-indexed polygon, other than `i` itself, that contains the
    * first vertex of `i`; -1 means no other polygon contains it. */
  lemma {:induction false} FirstContainerIsLowest(polygons: seq<Polygon>, tol: Tolerance, i: nat, from: nat)
    requires HasFirstPoints(polygons) && i < |polygons| && from <= |polygons|
    ensures var r := FirstContainer(polygons, tol, i, from);
      (r >= 0 ==> Inside(polygons, tol, i, r)) &&
      (forall j :: from <= j < |polygons| && (r < 0 || j < r) ==> !Inside(polygons, tol, i, j))
    decreases |polygons| - from
  {
    if from < |polygons| && !Inside(polygons, tol, i, from) {
      FirstContainerIsLowest(polygons, tol, i, from + 1);
    }
  }

  function Container(polygons: seq<Polygon>, tol: Tolerance, i: nat): int
    requires HasFirstPoints(polygons) && i < |polygons|
  {
    FirstContainer(polygons, tol, i, 0)
  }

  /** The container of every polygon of the list. */
  function Containers(polygons: seq<Polygon>, tol: Tolerance): (r: seq<int>)
    requires HasFirstPoints(polygons)
    ensures ValidContainers(polygons, r)
  {
    ContainersUpTo(polygons, tol, |polygons|)
  }

  function ContainersUpTo(polygons: seq<Polygon>, tol: Tolerance, n: nat): (r: seq<int>)
    requires HasFirstPoints(polygons) && n <= |polygons|
    ensures |r| == n
    ensures forall k :: 0 <= k < n ==> -1 <= r[k] < |polygons|
  {
    if n == 0 then [] else ContainersUpTo(polygons, tol, n - 1) + [Container(polygons, tol, n - 1)]
  }

  lemma {:induction false} ContainersUpToAt(polygons: seq<Polygon>, tol: Tolerance, n: nat, k: nat)
    requires HasFirstPoints(polygons) && k < n <= |polygons|
    ensures ContainersUpTo(polygons, tol, n)[k] == Container(polygons, tol, k)
  {
    if k < n - 1 {
      ContainersUpToAt(polygons, tol, n - 1, k);
    }
  }

  /** `containers` records the container of every polygon. */
  ghost predicate ContainersMatch(polygons: seq<Polygon>, tol: Tolerance, containers: seq<int>)
  {
    HasFirstPoints(polygons) && |containers| == |polygons| &&
    forall k {:trigger Container(polygons, tol, k)} :: 0 <= k < |polygons| ==> containers[k] == Container(polygons, tol, k)
  }

  lemma ContainersMatchAll(polygons: seq<Polygon>, tol: Tolerance)
    requires HasFirstPoints(polygons)
    ensures ContainersMatch(polygons, tol, Containers(polygons, tol))
  {
    forall k | 0 <= k < |polygons|
      ensures Containers(polygons, tol)[k] == Container(polygons, tol, k)
    {
      ContainersUpToAt(polygons, tol, |polygons|, k);
    }
  }

  predicate ValidContainers(polygons: seq<Polygon>, containers: seq<int>)
  {
    |containers| == |polygons| && forall k :: 0 <= k < |containers| ==> -1 <= containers[k] < |polygons|
  }

  /** The polygons among the first `k` whose container is `target`, in list order. */
  function Pushed(polygons: seq<Polygon>, containers: seq<int>, target: Polygon, k: nat): (r: seq<Polygon>)
    requires ValidContainers(polygons, containers) && k <= |polygons|
    ensures |r| <= k
  {
    if k == 0 then []
    else
      var c := containers[k - 1];
      Pushed(polygons, containers, target, k - 1) + (if c >= 0 && polygons[c] == target then [polygons[k - 1]] else [])
  }

  /** The polygons among the first `k` that have no container, in list order. */
  function Parents(polygons: seq<Polygon>, containers: seq<int>, k: nat): (r: seq<Polygon>)
    requires ValidContainers(polygons, containers) && k <= |polygons|
    ensures |r| <= k
  {
    if k == 0 then []
    else
      Parents(polygons, containers, k - 1) + (if containers[k - 1] < 0 then [polygons[k - 1]] else [])
  }

  /** The parents are exactly the polygons, among the first `k`, that have no container. */
  lemma {:induction false} ParentsAreUncontained(polygons: seq<Polygon>, containers: seq<int>, k: nat)
    requires ValidContainers(polygons, containers) && k <= |polygons|
    ensures forall x :: x in Parents(polygons, containers, k) ==>
      exists i :: 0 <= i < k && polygons[i] == x && containers[i] < 0
    ensures forall i :: 0 <= i < k && containers[i] < 0 ==> polygons[i] in Parents(polygons, containers, k)
  {
    if k > 0 {
      ParentsAreUncontained(polygons, containers, k - 1);
    }
  }

  /** The polygons pushed onto `target` are exactly those, among the first `k`, whose container is
    * `target`. */
  lemma {:induction false} PushedAreContained(polygons: seq<Polygon>, containers: seq<int>, target: Polygon, k: nat)
    requires ValidContainers(polygons, containers) && k <= |polygons|
    ensures forall x :: x in Pushed(polygons, containers, target, k) ==>
      exists i :: 0 <= i < k && polygons[i] == x && containers[i] >= 0 && polygons[containers[i]] == target
    ensures forall i :: 0 <= i < k && containers[i] >= 0 && polygons[containers[i]] == target ==>
      polygons[i] in Pushed(polygons, containers, target, k)
  {
    if k > 0 {
      PushedAreContained(polygons, containers, target, k - 1);
    }
  }

  /** A `children` array after `pushed` is appended to it, created when absent. */
  function AddChildren(children: Option<seq<Polygon>>, pushed: seq<Polygon>): (r: Option<seq<Polygon>>)
    ensures pushed == [] ==> r == children
    ensures pushed != [] ==> r.Some? && |r.value| >= |pushed| && r.value[|r.value| - |pushed|..] == pushed
  {
    if pushed == [] then children
    else Some(ChildList(children) + pushed)
  }

  /** The entries of `polygons` that occur in `parents`, in list order. */
  function Filter(polygons: seq<Polygon>, parents: seq<Polygon>): (r: seq<Polygon>)
    ensures |r| <= |polygons|
  {
    if polygons == [] then []
    else
      var last := polygons[|polygons| - 1];
      Filter(polygons[..|polygons| - 1], parents) + (if last in parents then [last] else [])
  }

  /** The kept polygons are exactly those of the list that are parents. */
  lemma {:induction false} FilterMembers(polygons: seq<Polygon>, parents: seq<Polygon>)
    ensures forall x :: x in Filter(polygons, parents) <==> x in polygons && x in parents
  {
    if polygons != [] {
      var init := polygons[..|polygons| - 1];
      FilterMembers(init, parents);
      assert polygons == init + [polygons[|polygons| - 1]];
    }
  }

  /** The inner loop of the first pass: the lowest-indexed other polygon containing the first
    * vertex of polygon `i`. */
  method FindContainer(polygons: seq<Polygon>, tol: Tolerance, i: nat) returns (r: int)
    requires HasFirstPoints(polygons) && i < |polygons|
    ensures r == Container(polygons, tol, i)
  {
    var j := 0;
    while j < |polygons|
      invariant 0 <= j <= |polygons|
      invariant forall k :: 0 <= k < j ==> !Inside(polygons, tol, i, k)
    {
      if j != i {
        var inside := PointInPolygon(polygons[i].points[0], Some(polygons[j].points), tol);
        if inside == Some(true) {
          assert Inside(polygons, tol, i, j);
          FirstContainerIsLowest(polygons, tol, i, 0);
          return j;
        }
      }
      j := j + 1;
    }
    FirstContainerIsLowest(polygons, tol, i, 0);
    return -1;
  }

  /** The state of the first pass after `i` polygons: `parents` holds the uncontained ones and each
    * polygon's `children` has had its contained polygons appended. */
  ghost predicate Assigned(polygons: seq<Polygon>, containers: seq<int>, before: seq<Option<seq<Polygon>>>,
                           parents: seq<Polygon>, i: nat)
    requires ValidContainers(polygons, containers) && |before| == |polygons|
    reads polygons
  {
    i <= |polygons| && parents == Parents(polygons, containers, i) &&
    forall j {:trigger before[j]} :: 0 <= j < |polygons| ==>
      polygons[j].children == AddChildren(before[j], Pushed(polygons, containers, polygons[j], i))
  }

  /** The first-pass state together with the frame facts the pass keeps. */
  ghost predicate FirstPass(polygons: seq<Polygon>, containers: seq<int>, before: seq<Option<seq<Polygon>>>,
                            parents: seq<Polygon>, i: nat, universe: set<Polygon>)
    reads polygons, universe
  {
    ValidContainers(polygons, containers) && |before| == |polygons| &&
    Assigned(polygons, containers, before, parents, i) &&
    Closed(universe) && (forall k :: 0 <= k < |polygons| ==> polygons[k] in universe)
  }

  /** Appending polygon `i` to the children of its container `c` keeps the first-pass state. */
  method PushChild(polygons: seq<Polygon>, ghost containers: seq<int>, ghost before: seq<Option<seq<Polygon>>>,
                   parents: seq<Polygon>, i: nat, c: nat, ghost universe: set<Polygon>)
    requires FirstPass(polygons, containers, before, parents, i, universe)
    requires i < |polygons| && c < |polygons| && containers[i] == c
    modifies polygons[c]
    ensures FirstPass(polygons, containers, before, parents, i + 1, universe)
  {
    var node := polygons[c];
    node.children := Some(ChildList(node.children) + [polygons[i]]);
    forall j | 0 <= j < |polygons|
      ensures polygons[j].children == AddChildren(before[j], Pushed(polygons, containers, polygons[j], i + 1))
    {
      var pushed := Pushed(polygons, containers, polygons[j], i);
      if polygons[j] == node {
        assert Pushed(polygons, containers, node, i + 1) == pushed + [polygons[i]];
        AddChildrenSnoc(before[j], pushed, polygons[i]);
      } else {
        assert Pushed(polygons, containers, polygons[j], i + 1) == pushed;
      }
    }
    forall p | p in universe && p.children.Some?
      ensures forall x :: x in p.children.value ==> x in universe
    {
      if p == node {
        assert forall x :: x in p.children.value ==> x in old(ChildList(node.children)) || x == polygons[i];
      }
    }
  }

  function ChildList(children: Option<seq<Polygon>>): seq<Polygon>
  {
    if children.Some? then children.value else []
  }

  lemma AddChildrenSnoc(children: Option<seq<Polygon>>, pushed: seq<Polygon>, x: Polygon)
    ensures AddChildren(children, pushed + [x]) == Some(ChildList(AddChildren(children, pushed)) + [x])
  {
    if pushed == [] {
      assert pushed + [x] == [x];
    } else {
      assert ChildList(children) + (pushed + [x]) == (ChildList(children) + pushed) + [x];
    }
  }

  /** One iteration of the first pass: the container of polygon `i` is looked up and the polygon
    * filed under it. */
  method AssignStep(polygons: seq<Polygon>, tol: Tolerance, ghost containers: seq<int>,
                    ghost before: seq<Option<seq<Polygon>>>, parents: seq<Polygon>, i: nat,
                    ghost universe: set<Polygon>) returns (parents': seq<Polygon>)
    requires ContainersMatch(polygons, tol, containers) && i < |polygons|
    requires FirstPass(polygons, containers, before, parents, i, universe)
    modifies universe
    ensures FirstPass(polygons, containers, before, parents', i + 1, universe)
  {
    var c := FindContainer(polygons, tol, i);
    parents' := AssignOne(polygons, containers, before, parents, i, c, universe);
  }

  /** One step of the first pass: polygon `i` is appended to the children of its container `c`, or
    * to the parents when it has none (`c` is -1). */
  method AssignOne(polygons: seq<Polygon>, ghost containers: seq<int>, ghost before: seq<Option<seq<Polygon>>>,
                   parents: seq<Polygon>, i: nat, c: int, ghost universe: set<Polygon>) returns (parents': seq<Polygon>)
    requires FirstPass(polygons, containers, before, parents, i, universe)
    requires i < |polygons| && containers[i] == c
    modifies polygons
    ensures FirstPass(polygons, containers, before, parents', i + 1, universe)
  {
    if c >= 0 {
      PushChild(polygons, containers, before, parents, i, c, universe);
      parents' := parents;
    } else {
      parents' := parents + [polygons[i]];
      AddParent(polygons, containers, before, parents, i, universe);
    }
  }

  /** Appending an uncontained polygon `i` to the parents keeps the first-pass state. */
  lemma AddParent(polygons: seq<Polygon>, containers: seq<int>, before: seq<Option<seq<Polygon>>>,
                  parents: seq<Polygon>, i: nat, universe: set<Polygon>)
    requires FirstPass(polygons, containers, before, parents, i, universe)
    requires i < |polygons| && containers[i] < 0
    ensures FirstPass(polygons, containers, before, parents + [polygons[i]], i + 1, universe)
  {
    forall j | 0 <= j < |polygons|
      ensures Pushed(polygons, containers, polygons[j], i + 1) == Pushed(polygons, containers, polygons[j], i)
    {
    }
  }

  ghost function ChildArrays(polygons: seq<Polygon>): (r: seq<Option<seq<Polygon>>>)
    reads polygons
    ensures |r| == |polygons|
    ensures forall j :: 0 <= j < |polygons| ==> r[j] == polygons[j].children
  {
    if polygons == [] then [] else ChildArrays(polygons[..|polygons| - 1]) + [polygons[|polygons| - 1].children]
  }

  lemma FirstPassStart(polygons: seq<Polygon>, containers: seq<int>, universe: set<Polygon>)
    requires ValidContainers(polygons, containers)
    requires Closed(universe) && forall p :: p in polygons ==> p in universe
    ensures FirstPass(polygons, containers, ChildArrays(polygons), [], 0, universe)
  {
  }

  /** The first pass of `nestPolygons`: every polygon whose first vertex lies inside another is
    * appended to the children of the lowest-indexed such polygon (the array is created when
    * absent); the others are returned as the parents, in list order. */
  method AssignChildren(polygons: seq<Polygon>, tol: Tolerance, ghost containers: seq<int>,
                        ghost universe: set<Polygon>) returns (parents: seq<Polygon>)
    requires ContainersMatch(polygons, tol, containers) && ValidContainers(polygons, containers)
    requires Closed(universe) && forall p :: p in polygons ==> p in universe
    modifies universe
    ensures Assigned(polygons, containers, old(ChildArrays(polygons)), parents, |polygons|)
    ensures Closed(universe)
  {
    ghost var before := ChildArrays(polygons);
    parents := [];
    FirstPassStart(polygons, containers, universe);
    var i := 0;
    while i < |polygons|
      invariant 0 <= i <= |polygons|
      invariant FirstPass(polygons, containers, before, parents, i, universe)
    {
      parents := AssignStep(polygons, tol, containers, before, parents, i, universe);
      i := i + 1;
    }
  }

  lemma FilterSnoc(polygons: seq<Polygon>, parents: seq<Polygon>, k: nat)
    requires k < |polygons|
    ensures Filter(polygons[..k + 1], parents) ==
      Filter(polygons[..k], parents) + (if polygons[k] in parents then [polygons[k]] else [])
  {
    assert polygons[..k + 1][..k] == polygons[..k];
  }

  /** The second pass of `nestPolygons`: the splice loop that removes from the list every polygon
    * not among the parents, keeping the rest in order. */
  method KeepParents(polygons: seq<Polygon>, parents: seq<Polygon>) returns (kept: seq<Polygon>)
    ensures kept == Filter(polygons, parents)
    ensures forall p :: p in kept <==> p in polygons && p in parents
  {
    kept := polygons;
    var i := 0;
    ghost var k := 0;
    while i < |kept|
      invariant 0 <= i <= |kept| && 0 <= k <= |polygons|
      invariant kept[..i] == Filter(polygons[..k], parents)
      invariant kept[i..] == polygons[k..]
      decreases |polygons| - k
    {
      FilterSnoc(polygons, parents, k);
      assert kept[i] == polygons[k];
      if kept[i] !in parents {
        ghost var front := kept[..i];
        kept := kept[..i] + kept[i + 1..];
        assert kept[..i] == front;
      } else {
        i := i + 1;
      }
      k := k + 1;
    }
    assert polygons[..k] == polygons;
    FilterMembers(polygons, parents);
  }

  /** One level of `nestPolygons`: both passes over the list, before any recursion. */
  method NestLevel(polygons: seq<Polygon>, tol: Tolerance, ghost universe: set<Polygon>)
    returns (kept: seq<Polygon>, parents: seq<Polygon>)
    requires Closed(universe) && forall p :: p in polygons ==> p in universe
    modifies universe
    ensures HasFirstPoints(polygons)
    ensures Assigned(polygons, Containers(polygons, tol), old(ChildArrays(polygons)), parents, |polygons|)
    ensures kept == Filter(polygons, parents)
    ensures forall p :: p in kept ==> p in polygons
    ensures Closed(universe) && forall p :: p in parents ==> p in universe
  {
    assert HasFirstPoints(polygons);
    ghost var containers := Containers(polygons, tol);
    ContainersMatchAll(polygons, tol);
    parents := AssignChildren(polygons, tol, containers, universe);
    kept := KeepParents(polygons, parents);
    ParentsAreUncontained(polygons, containers, |polygons|);
  }

  /** `nestPolygons`: builds the containment tree. The list is reduced in place to the polygons
    * contained in no other, in their original order; each of them then has its children list
    * nested the same way, to a depth of `fuel`. */
  method NestPolygons(polygons: seq<Polygon>, tol: Tolerance, ghost universe: set<Polygon>, fuel: nat)
    returns (kept: seq<Polygon>)
    requires Closed(universe) && forall p :: p in polygons ==> p in universe
    modifies universe
    ensures HasFirstPoints(polygons)
    ensures kept == Filter(polygons, Parents(polygons, Containers(polygons, tol), |polygons|))
    ensures forall p :: p in kept ==> p in polygons
    ensures Closed(universe)
    decreases fuel, 1
  {
    var parents;
    kept, parents := NestLevel(polygons, tol, universe);
    NestChildren(parents, tol, universe, fuel);
  }

  /** The last loop of `nestPolygons`: each parent that has a children list gets it nested. */
  method NestChildren(parents: seq<Polygon>, tol: Tolerance, ghost universe: set<Polygon>, fuel: nat)
    requires Closed(universe) && forall p :: p in parents ==> p in universe
    modifies universe
    ensures Closed(universe)
    decreases fuel, 0
  {
    var i := 0;
    while i < |parents|
      invariant 0 <= i <= |parents|
      invariant Closed(universe)
    {
      var parent := parents[i];
      if parent.children.Some? && fuel > 0 {
        var nested := NestPolygons(parent.children.value, tol, universe, fuel - 1);
        parent.children := Some(nested);
      }
      i := i + 1;
    }
  }

  // ---------------------------------------------------------------- legacyToPolygonNode(s)

  /** A flat polygon node: coordinates interleaved as `[x0, y0, x1, y1, ...]`. */
  datatype PolygonNode = PolygonNode(source: real, rotation: real, memSeg: seq<real>, children: seq<PolygonNode>)

  /** The interleaved layout `[x0, y0, x1, y1, ...]` of an outline. */
  function Flatten(points: seq<Point>): (r: seq<real>)
    ensures |r| == 2 * |points|
  {
    if points == [] then []
    else
      var last := points[|points| - 1];
      Flatten(points[..|points| - 1]) + [last.x, last.y]
  }

  /** Vertex `i` sits at positions `2i` and `2i + 1` of the interleaved layout. */
  lemma {:induction false} FlattenAt(points: seq<Point>, i: nat)
    requires i < |points|
    ensures Flatten(points)[2 * i] == points[i].x && Flatten(points)[2 * i + 1] == points[i].y
  {
    var init := points[..|points| - 1];
    if i < |init| {
      FlattenAt(init, i);
      assert init[i] == points[i];
    }
  }

  function Unflatten(memSeg: seq<real>): (r: seq<Point>)
    requires |memSeg| % 2 == 0
    ensures 2 * |r| == |memSeg|
  {
    if memSeg == [] then []
    else Unflatten(memSeg[..|memSeg| - 2]) + [Point(memSeg[|memSeg| - 2], memSeg[|memSeg| - 1])]
  }

  /** The interleaved layout loses nothing: reading the pairs back gives the outline. */
  lemma {:induction false} UnflattenFlatten(points: seq<Point>)
    ensures Unflatten(Flatten(points)) == points
  {
    if points != [] {
      var init := points[..|points| - 1];
      var flat := Flatten(points);
      assert flat[..|flat| - 2] == Flatten(init);
      UnflattenFlatten(init);
      assert points == init + [points[|points| - 1]];
    }
  }

  /** `polygon.source || -1`: an absent or zero source becomes -1. */
  function SourceOrDefault(source: Option<real>): real
  {
    if source.None? || source.value == 0.0 then -1.0 else source.value
  }

  /** `polygon.rotation || 0`. */
  function RotationOrDefault(rotation: Option<real>): real
  {
    if rotation.None? then 0.0 else rotation.value
  }

  /** `legacyToPolygonNode`: copies the outline into a new array of `2n` coordinates, vertex `i`
    * at positions `2i` and `2i + 1`; an absent or zero source becomes -1 and an absent rotation 0. */
  method LegacyToPolygonNode(polygon: Polygon, children: seq<PolygonNode>) returns (node: PolygonNode)
    ensures node.memSeg == Flatten(polygon.points)
    ensures polygon.source.None? || polygon.source.value == 0.0 ==> node.source == -1.0
    ensures polygon.source.Some? && polygon.source.value != 0.0 ==> node.source == polygon.source.value
    ensures polygon.rotation.None? ==> node.rotation == 0.0
    ensures polygon.rotation.Some? ==> node.rotation == polygon.rotation.value
    ensures node.children == children
  {
    var points := polygon.points;
    var pointCount := |points|;
    var memSeg := new real[2 * pointCount];
    var i := 0;
    while i < pointCount
      invariant 0 <= i <= pointCount
      invariant memSeg[..2 * i] == Flatten(points[..i])
    {
      ghost var done := memSeg[..2 * i];
      memSeg[2 * i] := points[i].x;
      memSeg[2 * i + 1] := points[i].y;
      assert memSeg[..2 * i + 2] == done + [points[i].x, points[i].y];
      assert points[..i + 1][..i] == points[..i];
      i := i + 1;
    }
    assert points[..pointCount] == points;
    assert memSeg[..] == memSeg[..2 * pointCount];
    node := PolygonNode(SourceOrDefault(polygon.source), RotationOrDefault(polygon.rotation), memSeg[..], children);
  }

  /** Every polygon of `universe` has a rank above those of its children: the tree is acyclic. */
  ghost predicate WellRanked(universe: set<Polygon>, rank: map<Polygon, nat>)
    reads universe
  {
    forall p :: p in universe ==>
      p in rank &&
      (p.children.Some? ==> forall c :: c in p.children.value ==> c in universe && c in rank && rank[c] < rank[p])
  }

  /** `node` is the flat copy of `polygon` and of its whole subtree. */
  ghost predicate Mirrors(node: PolygonNode, polygon: Polygon, universe: set<Polygon>, rank: map<Polygon, nat>)
    requires WellRanked(universe, rank) && polygon in universe
    reads universe
    decreases rank[polygon]
  {
    var kids := if polygon.children.Some? then polygon.children.value else [];
    node.memSeg == Flatten(polygon.points) &&
    node.source == SourceOrDefault(polygon.source) &&
    node.rotation == RotationOrDefault(polygon.rotation) &&
    |node.children| == |kids| &&
    forall k :: 0 <= k < |kids| ==> Mirrors(node.children[k], kids[k], universe, rank)
  }

  /** `legacyToPolygonNodes`: converts a list of polygons, each with its children converted first;
    * a missing list gives no nodes. */
  method LegacyToPolygonNodes(polygons: Option<seq<Polygon>>, ghost universe: set<Polygon>,
                              ghost rank: map<Polygon, nat>, ghost bound: nat) returns (result: seq<PolygonNode>)
    requires WellRanked(universe, rank)
    requires polygons.Some? ==> forall p :: p in polygons.value ==> p in universe && rank[p] < bound
    ensures polygons.None? ==> result == []
    ensures polygons.Some? ==> |result| == |polygons.value|
    ensures polygons.Some? ==> MirrorsAll(result, polygons.value, universe, rank)
    decreases bound
  {
    result := [];
    if polygons.None? {
      return;
    }
    var list := polygons.value;
    var i := 0;
    while i < |list|
      invariant 0 <= i <= |list| && |result| == i
      invariant forall k :: 0 <= k < |list| ==> list[k] in universe && rank[list[k]] < bound
      invariant MirrorsAll(result, list, universe, rank)
    {
      ghost var done := result;
      var polygon := list[i];
      var children := LegacyToPolygonNodes(polygon.children, universe, rank, rank[polygon]);
      var node := LegacyToPolygonNode(polygon, children);
      MirrorsNode(node, polygon, universe, rank);
      result := result + [node];
      MirrorsAppend(done, node, list, universe, rank);
      i := i + 1;
    }
  }

  lemma MirrorsNode(node: PolygonNode, polygon: Polygon, universe: set<Polygon>, rank: map<Polygon, nat>)
    requires WellRanked(universe, rank) && polygon in universe
    requires node.memSeg == Flatten(polygon.points)
    requires node.source == SourceOrDefault(polygon.source)
    requires node.rotation == RotationOrDefault(polygon.rotation)
    requires polygon.children.None? ==> node.children == []
    requires polygon.children.Some? ==> |node.children| == |polygon.children.value|
    requires polygon.children.Some? ==> forall k :: 0 <= k < |node.children| ==>
      Mirrors(node.children[k], polygon.children.value[k], universe, rank)
    ensures Mirrors(node, polygon, universe, rank)
  {
  }

  /** Each node of `nodes` mirrors the polygon at the same position of `polygons`. */
  ghost predicate MirrorsAll(nodes: seq<PolygonNode>, polygons: seq<Polygon>, universe: set<Polygon>,
                             rank: map<Polygon, nat>)
    reads universe
  {
    WellRanked(universe, rank) && |nodes| <= |polygons| &&
    (forall k :: 0 <= k < |polygons| ==> polygons[k] in universe) &&
    forall k :: 0 <= k < |nodes| ==> Mirrors(nodes[k], polygons[k], universe, rank)
  }

  lemma MirrorsAppend(nodes: seq<PolygonNode>, node: PolygonNode, polygons: seq<Polygon>,
                      universe: set<Polygon>, rank: map<Polygon, nat>)
    requires MirrorsAll(nodes, polygons, universe, rank) && |nodes| < |polygons|
    requires Mirrors(node, polygons[|nodes|], universe, rank)
    ensures MirrorsAll(nodes + [node], polygons, universe, rank)
  {
    var longer := nodes + [node];
    forall k | 0 <= k < |longer|
      ensures Mirrors(longer[k], polygons[k], universe, rank)
    {
      if k < |nodes| {
        assert longer[k] == nodes[k];
      }
    }
  }

  /** A mirrored node reads back to the outline it was made from. */
  lemma MirrorsOutline(node: PolygonNode, polygon: Polygon, universe: set<Polygon>, rank: map<Polygon, nat>)
    requires WellRanked(universe, rank) && polygon in universe
    requires Mirrors(node, polygon, universe, rank)
    ensures |node.memSeg| == 2 * |polygon.points|
    ensures Unflatten(node.memSeg) == polygon.points
  {
    UnflattenFlatten(polygon.points);
  }
}
