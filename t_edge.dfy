/**
 * The edge record of the Vatti clipping engine (t-edge.ts).
 *
 * Edges live in an arena, a `seq<TEdge>` indexed by `int`; every reference
 * field of the TypeScript class (`Next`, `Prev`, `NextInLML`, the AEL and SEL
 * links) is an index into that arena, with `NULL` (-1) standing for `null`.
 * The list-surgery methods take the arena and return the updated one.
 *
 * The Active Edge List (AEL) and the Sorted Edge List (SEL) are intrusive
 * doubly-linked lists threaded through the same records; `ListKind` selects
 * which pair of link fields an operation works on, so that the AEL and SEL
 * variants of one operation share their proof.  A list is described by a
 * ghost `order`: the indices of its members from head to tail.
 */
module ClipperEdge {

  /** The null reference. */
  const NULL: int := -1

  /** `TEdge.Unassigned`: the `OutIdx` of an edge that has no output record. */
  const UNASSIGNED: int := -1

  /** An integer point; the model reads the `x`/`y` and `X`/`Y` accessors as the same coordinate. */
  datatype IntPoint = IntPoint(x: int, y: int)

  datatype PolyType = Subject | Clip
  datatype EdgeSide = Left | Right
  datatype PolyFillType = EvenOdd | NonZero | Positive | Negative
  datatype ClipType = Intersection | Union | Difference | Xor
  datatype Direction = RightToLeft | LeftToRight

  /**
   * `Dx`: either the `HORIZONTAL` marker or the inverse slope dx/dy, kept
   * here as an exact rational instead of a double.
   */
  datatype Slope = Horizontal | Ratio(value: real)

  /**
   * Every `Dx` comparison in the engine treats `HORIZONTAL` as lower than any
   * finite inverse slope.
   */
  predicate SlopeGreater(a: Slope, b: Slope)
  {
    match (a, b)
    case (Horizontal, _) => false
    case (Ratio(_), Horizontal) => true
    case (Ratio(u), Ratio(v)) => u > v
  }

  datatype TEdge = TEdge(
    Bot: IntPoint, Curr: IntPoint, Top: IntPoint, Delta: IntPoint, Dx: Slope,
    PolyTyp: PolyType, Side: EdgeSide,
    WindDelta: int, WindCnt: int, WindCnt2: int, OutIdx: int,
    Next: int, Prev: int, NextInLML: int,
    NextInAEL: int, PrevInAEL: int, NextInSEL: int, PrevInSEL: int)

  /** A freshly constructed edge: zero points, subject, left side, no links. */
  const BlankEdge: TEdge := TEdge(
    IntPoint(0, 0), IntPoint(0, 0), IntPoint(0, 0), IntPoint(0, 0), Ratio(0.0),
    Subject, Left, 0, 0, 0, 0,
    NULL, NULL, NULL, NULL, NULL, NULL, NULL)

  /** A reference field holds null or an index of the arena. */
  predicate ValidLink(v: int, n: int)
  {
    v == NULL || 0 <= v < n
  }

  predicate EdgeLinksIn(e: TEdge, n: int)
  {
    ValidLink(e.Next, n) && ValidLink(e.Prev, n) && ValidLink(e.NextInLML, n) &&
    ValidLink(e.NextInAEL, n) && ValidLink(e.PrevInAEL, n) &&
    ValidLink(e.NextInSEL, n) && ValidLink(e.PrevInSEL, n)
  }

  /** Every reference in the arena is null or points into the arena. */
  predicate LinksInRange(edges: seq<TEdge>)
  {
    forall i :: 0 <= i < |edges| ==> EdgeLinksIn(edges[i], |edges|)
  }

  // ---------------------------------------------------------------------
  // Pure queries
  // ---------------------------------------------------------------------

  /** `isHorizontal`: the edge has no vertical extent. */
  predicate IsHorizontal(e: TEdge)
  {
    e.Delta.y == 0
  }

  /** `getIntermediate(y)`: the edge ends at `y` and its bound goes on. */
  predicate GetIntermediate(e: TEdge, y: int)
  {
    e.Top.y == y && e.NextInLML != NULL
  }

  /**
   * The floating-point part of `topX`: `clipperRound(Dx * dy)`, the rounded
   * horizontal offset after climbing `dy` along a line of inverse slope `Dx`.
   */
  datatype Geometry = Geometry(offset: (Slope, int) -> int)

  /** `topX(y)`: the X at which the edge's line crosses the scanline `y`. */
  function TopX(e: TEdge, y: int, geo: Geometry): (x: int)
    ensures y == e.Top.y ==> x == e.Top.x
  {
    if y == e.Top.y then e.Top.x else e.Bot.x + geo.offset(e.Dx, y - e.Bot.y)
  }

  /**
   * `insertsBefore(edge)`: `e` belongs to the left of `edge` in the AEL.
   * Edges with distinct current X are ordered by it; on a tie the edge whose
   * top is lower decides by comparing its top X with the other edge's X there.
   */
  predicate InsertsBefore(e: TEdge, edge: TEdge, geo: Geometry)
  {
    if e.Curr.x == edge.Curr.x then
      if e.Top.y > edge.Top.y then e.Top.x < TopX(edge, e.Top.y, geo)
      else edge.Top.x > TopX(e, edge.Top.y, geo)
    else e.Curr.x < edge.Curr.x
  }

  lemma InsertsBeforeByCurrentX(e: TEdge, edge: TEdge, geo: Geometry)
    requires e.Curr.x != edge.Curr.x
    ensures InsertsBefore(e, edge, geo) <==> e.Curr.x < edge.Curr.x
    ensures InsertsBefore(e, edge, geo) <==> !InsertsBefore(edge, e, geo)
  {
  }

  /**
   * `slopesEqual`: the two edges are parallel, decided on the exact cross
   * product of their deltas (the Int64 and Int128 paths agree on exact
   * integers).
   */
  predicate SlopesEqual(e1: TEdge, e2: TEdge)
  {
    e1.Delta.y * e2.Delta.x == e1.Delta.x * e2.Delta.y
  }

  lemma SlopesEqualSymmetric(e1: TEdge, e2: TEdge)
    ensures SlopesEqual(e1, e2) <==> SlopesEqual(e2, e1)
  {
  }

  /** On two non-horizontal edges whose `Dx` is exact, equal slopes means equal `Dx`. */
  lemma SlopesEqualMeansSameDx(e1: TEdge, e2: TEdge)
    requires !IsHorizontal(e1) && !IsHorizontal(e2)
    requires e1.Dx == Ratio(e1.Delta.x as real / e1.Delta.y as real)
    requires e2.Dx == Ratio(e2.Delta.x as real / e2.Delta.y as real)
    ensures SlopesEqual(e1, e2) <==> e1.Dx == e2.Dx
  {
    var a, b := e1.Delta.x as real, e1.Delta.y as real;
    var c, d := e2.Delta.x as real, e2.Delta.y as real;
    assert b != 0.0 && d != 0.0;
    calc {
      a / b == c / d;
      <==> { assert a / b * (b * d) == a * d; assert c / d * (b * d) == c * b; }
      a * d == c * b;
    }
    assert (a * d == c * b) <==> (e1.Delta.x * e2.Delta.y == e2.Delta.x * e1.Delta.y);
  }

  // ---------------------------------------------------------------------
  // The contribution decision table
  // ---------------------------------------------------------------------

  /** The fill rule of the edge's own polygon set, and that of the other set. */
  function OwnFill(e: TEdge, clipFill: PolyFillType, subjFill: PolyFillType): PolyFillType
  {
    if e.PolyTyp == Subject then subjFill else clipFill
  }

  function OtherFill(e: TEdge, clipFill: PolyFillType, subjFill: PolyFillType): PolyFillType
  {
    if e.PolyTyp == Subject then clipFill else subjFill
  }

  /** `getContributing`: first the own-fill test on `WindCnt`, then the clip-type table on `WindCnt2`. */
  predicate GetContributing(e: TEdge, clipType: ClipType, clipFill: PolyFillType, subjFill: PolyFillType)
  {
    var pft := OwnFill(e, clipFill, subjFill);
    var pft2 := OtherFill(e, clipFill, subjFill);
    var fillOk :=
      match pft
      case EvenOdd => !(e.WindDelta == 0 && e.WindCnt != 1)
      case NonZero => e.WindCnt == 1 || e.WindCnt == -1
      case Positive => e.WindCnt == 1
      case Negative => e.WindCnt == -1;
    var insideTest :=
      match pft2
      case EvenOdd => e.WindCnt2 != 0
      case NonZero => e.WindCnt2 != 0
      case Positive => e.WindCnt2 > 0
      case Negative => e.WindCnt2 < 0;
    var outsideTest :=
      match pft2
      case EvenOdd => e.WindCnt2 == 0
      case NonZero => e.WindCnt2 == 0
      case Positive => e.WindCnt2 <= 0
      case Negative => e.WindCnt2 >= 0;
    fillOk &&
    match clipType
    case Intersection => insideTest
    case Union => outsideTest
    case Difference => if e.PolyTyp == Subject then outsideTest else insideTest
    case Xor => if e.WindDelta == 0 then outsideTest else true
  }

  /**
   * Reference semantics of the fill rules: the winding number `wc` of a
   * point counts as inside a set filled by `fill`.  Even-odd counts are kept
   * reduced to 0/1 by the engine, so "odd" and "non-zero" agree on them.
   */
  predicate InsideBy(fill: PolyFillType, wc: int)
  {
    match fill
    case EvenOdd => wc != 0
    case NonZero => wc != 0
    case Positive => wc > 0
    case Negative => wc < 0
  }

  /** The edge bounds its own set's region under the own fill rule. */
  predicate OnOwnBoundary(e: TEdge, fill: PolyFillType)
  {
    match fill
    case EvenOdd => e.WindDelta != 0 || e.WindCnt == 1
    case NonZero => e.WindCnt == 1 || e.WindCnt == -1
    case Positive => e.WindCnt == 1
    case Negative => e.WindCnt == -1
  }

  /**
   * Which part of an own-set boundary edge belongs to the result of the
   * boolean operation, by whether the edge is inside the other set.
   */
  predicate KeptBy(clipType: ClipType, own: PolyType, closed: bool, insideOther: bool)
  {
    match clipType
    case Intersection => insideOther
    case Union => !insideOther
    case Difference => if own == Subject then !insideOther else insideOther
    case Xor => closed || !insideOther
  }

  /**
   * The decision table agrees with the set semantics: an edge contributes iff
   * it is on its own set's boundary and the boolean operation keeps that
   * boundary given whether the edge lies inside the other set.
   */
  lemma ContributingMeansKeptBoundary(e: TEdge, clipType: ClipType, clipFill: PolyFillType, subjFill: PolyFillType)
    ensures GetContributing(e, clipType, clipFill, subjFill) <==>
      OnOwnBoundary(e, OwnFill(e, clipFill, subjFill)) &&
      KeptBy(clipType, e.PolyTyp, e.WindDelta != 0, InsideBy(OtherFill(e, clipFill, subjFill), e.WindCnt2))
  {
  }

  /** Failing the own-fill test rules the edge out whatever the clip type. */
  lemma FillRuleGuardsContribution(e: TEdge, clipType: ClipType, clipFill: PolyFillType, subjFill: PolyFillType)
    requires GetContributing(e, clipType, clipFill, subjFill)
    ensures OwnFill(e, clipFill, subjFill) == EvenOdd ==> e.WindDelta != 0 || e.WindCnt == 1
    ensures OwnFill(e, clipFill, subjFill) == NonZero ==> e.WindCnt == 1 || e.WindCnt == -1
    ensures OwnFill(e, clipFill, subjFill) == Positive ==> e.WindCnt == 1
    ensures OwnFill(e, clipFill, subjFill) == Negative ==> e.WindCnt == -1
  {
  }

  /** Union keeps exactly the own-boundary edges that intersection drops. */
  lemma UnionComplementsIntersection(e: TEdge, clipFill: PolyFillType, subjFill: PolyFillType)
    requires OnOwnBoundary(e, OwnFill(e, clipFill, subjFill))
    ensures GetContributing(e, Union, clipFill, subjFill) <==> !GetContributing(e, Intersection, clipFill, subjFill)
  {
  }

  /** Under difference a subject edge is decided as under union and a clip edge as under intersection. */
  lemma DifferenceBySet(e: TEdge, clipFill: PolyFillType, subjFill: PolyFillType)
    ensures e.PolyTyp == Subject ==>
      (GetContributing(e, Difference, clipFill, subjFill) <==> GetContributing(e, Union, clipFill, subjFill))
    ensures e.PolyTyp == Clip ==>
      (GetContributing(e, Difference, clipFill, subjFill) <==> GetContributing(e, Intersection, clipFill, subjFill))
  {
  }

  /** Under XOR every closed own-boundary edge contributes; open edges are decided as under union. */
  lemma XorKeepsClosedBoundaries(e: TEdge, clipFill: PolyFillType, subjFill: PolyFillType)
    ensures e.WindDelta != 0 ==>
      (GetContributing(e, Xor, clipFill, subjFill) <==> OnOwnBoundary(e, OwnFill(e, clipFill, subjFill)))
    ensures e.WindDelta == 0 ==>
      (GetContributing(e, Xor, clipFill, subjFill) <==> GetContributing(e, Union, clipFill, subjFill))
  {
  }

  // ---------------------------------------------------------------------
  // Field updates on one edge
  // ---------------------------------------------------------------------

  /** `setDx`: `Delta := Top - Bot`, and `Dx` is `HORIZONTAL` exactly when `Delta.y` is 0. */
  method SetDx(e: TEdge) returns (r: TEdge)
    ensures r.Delta == IntPoint(e.Top.x - e.Bot.x, e.Top.y - e.Bot.y)
    ensures r.Dx == Horizontal <==> IsHorizontal(r)
    ensures !IsHorizontal(r) ==> r.Dx == Ratio(r.Delta.x as real / r.Delta.y as real)
    ensures r == e.(Delta := r.Delta, Dx := r.Dx)
  {
    r := e.(Delta := IntPoint(e.Top.x - e.Bot.x, e.Top.y - e.Bot.y));
    if r.Delta.y == 0 {
      r := r.(Dx := Horizontal);
    } else {
      r := r.(Dx := Ratio(r.Delta.x as real / r.Delta.y as real));
    }
  }

  /** `reset(side)`: back to the bottom of the edge, given side, no output record. */
  method Reset(e: TEdge, side: EdgeSide) returns (r: TEdge)
    ensures r.Curr == e.Bot && r.Side == side && r.OutIdx == UNASSIGNED
    ensures r == e.(Curr := r.Curr, Side := side, OutIdx := UNASSIGNED)
  {
    r := e.(Curr := e.Bot);
    r := r.(Side := side);
    r := r.(OutIdx := UNASSIGNED);
  }

  /** `reverseHorizontal`: swap the X of the two ends and nothing else. */
  method ReverseHorizontal(e: TEdge) returns (r: TEdge)
    ensures r.Top == IntPoint(e.Bot.x, e.Top.y) && r.Bot == IntPoint(e.Top.x, e.Bot.y)
    ensures r == e.(Top := r.Top, Bot := r.Bot)
  {
    var tmp := e.Top.x;
    r := e.(Top := e.Top.(x := e.Bot.x));
    r := r.(Bot := r.Bot.(x := tmp));
  }

  /** Reversing a horizontal edge twice restores it. */
  lemma ReverseHorizontalTwice(e: TEdge)
    ensures var once := e.(Top := IntPoint(e.Bot.x, e.Top.y), Bot := IntPoint(e.Top.x, e.Bot.y));
      once.(Top := IntPoint(once.Bot.x, once.Top.y), Bot := IntPoint(once.Top.x, once.Bot.y)) == e
  {
  }

  /** `init(next, prev, pt)`: link into the polygon's edge ring, start at `pt`, no output record. */
  method Init(edges: seq<TEdge>, e: int, nextEdge: int, prevEdge: int, point: IntPoint) returns (r: seq<TEdge>)
    requires 0 <= e < |edges|
    ensures |r| == |edges|
    ensures r[e] == edges[e].(Next := nextEdge, Prev := prevEdge, Curr := point, OutIdx := UNASSIGNED)
    ensures forall i :: 0 <= i < |edges| && i != e ==> r[i] == edges[i]
  {
    var edge := edges[e].(Next := nextEdge, Prev := prevEdge);
    edge := edge.(Curr := IntPoint(point.x, point.y));
    edge := edge.(OutIdx := UNASSIGNED);
    r := edges[e := edge];
  }

  /**
   * `initFromPolyType`: of the edge's start and its successor's start, the
   * lower one (larger y) becomes `Bot`, then `setDx`, then the poly type.
   */
  method InitFromPolyType(edges: seq<TEdge>, e: int, polyType: PolyType) returns (r: seq<TEdge>)
    requires 0 <= e < |edges| && 0 <= edges[e].Next < |edges|
    ensures |r| == |edges|
    ensures forall i :: 0 <= i < |edges| && i != e ==> r[i] == edges[i]
    ensures var a, b := edges[e].Curr, edges[edges[e].Next].Curr;
      if a.y >= b.y then r[e].Bot == a && r[e].Top == b else r[e].Bot == b && r[e].Top == a
    ensures r[e].Bot.y >= r[e].Top.y && r[e].Delta.y <= 0
    ensures r[e].Delta == IntPoint(r[e].Top.x - r[e].Bot.x, r[e].Top.y - r[e].Bot.y)
    ensures r[e].Dx == Horizontal <==> IsHorizontal(r[e])
    ensures r[e].PolyTyp == polyType
    ensures r[e] == edges[e].(Bot := r[e].Bot, Top := r[e].Top, Delta := r[e].Delta, Dx := r[e].Dx, PolyTyp := polyType)
  {
    var edge := edges[e];
    var nextCurr := edges[edge.Next].Curr;
    if edge.Curr.y >= nextCurr.y {
      edge := edge.(Bot := edge.Curr);
      edge := edge.(Top := nextCurr);
    } else {
      edge := edge.(Top := edge.Curr);
      edge := edge.(Bot := nextCurr);
    }
    edge := SetDx(edge);
    edge := edge.(PolyTyp := polyType);
    r := edges[e := edge];
  }

  /**
   * `remove`: unlink the edge from its polygon's `Next`/`Prev` ring, flag it
   * as removed by nulling both fields, and return its old `Next`.
   */
  method Remove(edges: seq<TEdge>, e: int) returns (r: seq<TEdge>, result: int)
    requires 0 <= e < |edges| && 0 <= edges[e].Next < |edges| && 0 <= edges[e].Prev < |edges|
    ensures result == edges[e].Next
    ensures |r| == |edges|
    ensures r[e].Next == NULL && r[e].Prev == NULL
    ensures edges[e].Prev != e ==> r[edges[e].Prev].Next == edges[e].Next
    ensures edges[e].Next != e ==> r[edges[e].Next].Prev == edges[e].Prev
    ensures forall i :: 0 <= i < |edges| ==> r[i] == edges[i].(Next := r[i].Next, Prev := r[i].Prev)
    ensures forall i :: 0 <= i < |edges| && i != e && i != edges[e].Next && i != edges[e].Prev ==> r[i] == edges[i]
    ensures Unlinked(edges, r, e, edges[e].Prev, edges[e].Next)
  {
    result := edges[e].Next;
    var prev, next := edges[e].Prev, edges[e].Next;
    r := edges[prev := edges[prev].(Next := next)];
    r := r[next := r[next].(Prev := prev)];
    r := r[e := r[e].(Prev := NULL)];
    r := r[e := r[e].(Next := NULL)];
  }

  /** Cyclic successor and predecessor of a position in a ring of `n` elements. */
  function Succ(i: int, n: int): int
  {
    if i + 1 == n then 0 else i + 1
  }

  function Pred(i: int, n: int): int
  {
    if i == 0 then n - 1 else i - 1
  }

  /** The polygon's edges as a ring: `ring[i].Next == ring[i+1]`, wrapping round. */
  predicate EdgeRing(edges: seq<TEdge>, ring: seq<int>)
  {
    |ring| > 0 &&
    (forall i :: 0 <= i < |ring| ==> 0 <= ring[i] < |edges|) &&
    (forall i, j :: 0 <= i < j < |ring| ==> ring[i] != ring[j]) &&
    (forall i {:trigger edges[ring[i]]} :: 0 <= i < |ring| ==> edges[ring[i]].Next == ring[Succ(i, |ring|)]) &&
    (forall i {:trigger edges[ring[i]]} :: 0 <= i < |ring| ==> edges[ring[i]].Prev == ring[Pred(i, |ring|)])
  }

  /** Position `i` of a sequence with position `p` taken out, in the original. */
  function Skip(i: int, p: int): int
  {
    if i < p then i else i + 1
  }

  lemma TakeOutAt<T>(s: seq<T>, p: int, i: int)
    requires 0 <= p < |s| && 0 <= i < |s| - 1
    ensures (s[..p] + s[p + 1..])[i] == s[Skip(i, p)]
  {
  }

  lemma TakeOutDistinct(s: seq<int>, p: int)
    requires 0 <= p < |s|
    requires forall i, j :: 0 <= i < j < |s| ==> s[i] != s[j]
    ensures var t := s[..p] + s[p + 1..];
      forall i, j :: 0 <= i < j < |t| ==> t[i] != t[j]
  {
    var t := s[..p] + s[p + 1..];
    forall i, j | 0 <= i < j < |t|
      ensures t[i] != t[j]
    {
      TakeOutAt(s, p, i);
      TakeOutAt(s, p, j);
    }
  }

  /**
   * The `Next`/`Prev` links after `e` is unlinked from between `prev` and
   * `next`: `prev` now points forward to `next` and `next` back to `prev`;
   * every other edge except `e` keeps its links.
   */
  predicate Unlinked(edges: seq<TEdge>, r: seq<TEdge>, e: int, prev: int, next: int)
  {
    |r| == |edges| &&
    forall x {:trigger r[x]} :: 0 <= x < |edges| && x != e ==>
      r[x].Next == (if x == prev then next else edges[x].Next) &&
      r[x].Prev == (if x == next then prev else edges[x].Prev)
  }

  lemma {:induction false} RemovedNextAt(edges: seq<TEdge>, r: seq<TEdge>, ring: seq<int>, p: int, i: int)
    requires EdgeRing(edges, ring) && |ring| >= 2 && 0 <= p < |ring|
    requires Unlinked(edges, r, ring[p], ring[Pred(p, |ring|)], ring[Succ(p, |ring|)])
    requires 0 <= i < |ring| - 1
    ensures r[ring[Skip(i, p)]].Next == ring[Skip(Succ(i, |ring| - 1), p)]
    ensures r[ring[Skip(i, p)]].Prev == ring[Skip(Pred(i, |ring| - 1), p)]
  {
    var n := |ring|;
    var oi := Skip(i, p);
    var x := ring[oi];
    assert edges[ring[oi]].Next == ring[Succ(oi, n)] && edges[ring[oi]].Prev == ring[Pred(oi, n)];
    assert x != ring[p];
    assert r[x].Next == (if x == ring[Pred(p, n)] then ring[Succ(p, n)] else edges[x].Next);
    assert r[x].Prev == (if x == ring[Succ(p, n)] then ring[Pred(p, n)] else edges[x].Prev);
    if oi != Pred(p, n) {
      assert x != ring[Pred(p, n)];
    }
    if oi != Succ(p, n) {
      assert x != ring[Succ(p, n)];
    }
  }

  /** `remove` on a ring of at least two edges leaves the ring without that edge. */
  lemma {:induction false} RemoveFromRing(edges: seq<TEdge>, r: seq<TEdge>, ring: seq<int>, p: int)
    requires EdgeRing(edges, ring) && |ring| >= 2 && 0 <= p < |ring|
    requires Unlinked(edges, r, ring[p], ring[Pred(p, |ring|)], ring[Succ(p, |ring|)])
    ensures EdgeRing(r, ring[..p] + ring[p + 1..])
  {
    var s := ring[..p] + ring[p + 1..];
    TakeOutDistinct(ring, p);
    forall i | 0 <= i < |s|
      ensures r[s[i]].Next == s[Succ(i, |s|)] && r[s[i]].Prev == s[Pred(i, |s|)]
    {
      RemovedRingAt(edges, r, ring, p, i);
    }
  }

  /** The links of the member at position `i` of the ring left by `RemoveFromRing`. */
  lemma {:induction false} RemovedRingAt(edges: seq<TEdge>, r: seq<TEdge>, ring: seq<int>, p: int, i: int)
    requires EdgeRing(edges, ring) && |ring| >= 2 && 0 <= p < |ring|
    requires Unlinked(edges, r, ring[p], ring[Pred(p, |ring|)], ring[Succ(p, |ring|)])
    requires 0 <= i < |ring| - 1
    ensures var s := ring[..p] + ring[p + 1..];
      r[s[i]].Next == s[Succ(i, |s|)] && r[s[i]].Prev == s[Pred(i, |s|)]
  {
    var s := ring[..p] + ring[p + 1..];
    RemovedNextAt(edges, r, ring, p, i);
    TakeOutAt(ring, p, i);
    TakeOutAt(ring, p, Succ(i, |s|));
    TakeOutAt(ring, p, Pred(i, |s|));
  }

  // ---------------------------------------------------------------------
  // The AEL and SEL
  // ---------------------------------------------------------------------

  /** Which intrusive list an operation works on. */
  datatype ListKind = AEL | SEL

  function NextIn(e: TEdge, k: ListKind): int
  {
    match k
    case AEL => e.NextInAEL
    case SEL => e.NextInSEL
  }

  function PrevIn(e: TEdge, k: ListKind): int
  {
    match k
    case AEL => e.PrevInAEL
    case SEL => e.PrevInSEL
  }

  function WithNextIn(e: TEdge, k: ListKind, v: int): TEdge
  {
    match k
    case AEL => e.(NextInAEL := v)
    case SEL => e.(NextInSEL := v)
  }

  function WithPrevIn(e: TEdge, k: ListKind, v: int): TEdge
  {
    match k
    case AEL => e.(PrevInAEL := v)
    case SEL => e.(PrevInSEL := v)
  }

  /** `b` is `a` with at most its two `k` links changed. */
  predicate SameBut(a: TEdge, b: TEdge, k: ListKind)
  {
    b == WithPrevIn(WithNextIn(a, k, NextIn(b, k)), k, PrevIn(b, k))
  }

  /** Both `k` links are null: the edge is not threaded on that list (or is its only member). */
  predicate Detached(e: TEdge, k: ListKind)
  {
    NextIn(e, k) == NULL && PrevIn(e, k) == NULL
  }

  /** Only `k` links differ between the two arenas. */
  predicate OnlyLinksChanged(s: seq<TEdge>, r: seq<TEdge>, k: ListKind)
  {
    |r| == |s| && forall x :: 0 <= x < |s| ==> SameBut(s[x], r[x], k)
  }

  lemma OnlyLinksChangedTrans(s: seq<TEdge>, t: seq<TEdge>, r: seq<TEdge>, k: ListKind)
    requires OnlyLinksChanged(s, t, k) && OnlyLinksChanged(t, r, k)
    ensures OnlyLinksChanged(s, r, k)
  {
    forall x | 0 <= x < |s|
      ensures SameBut(s[x], r[x], k)
    {
      SameButTrans(s[x], t[x], r[x], k);
    }
  }

  lemma SameButTrans(a: TEdge, b: TEdge, c: TEdge, k: ListKind)
    requires SameBut(a, b, k) && SameBut(b, c, k)
    ensures SameBut(a, c, k)
  {
  }

  /** One assignment `edges[i].NextIn<k> = v`. */
  function SetNext(s: seq<TEdge>, k: ListKind, i: int, v: int): (r: seq<TEdge>)
    requires 0 <= i < |s|
    ensures |r| == |s| && NextIn(r[i], k) == v
  {
    s[i := WithNextIn(s[i], k, v)]
  }

  /** One assignment `edges[i].PrevIn<k> = v`. */
  function SetPrev(s: seq<TEdge>, k: ListKind, i: int, v: int): (r: seq<TEdge>)
    requires 0 <= i < |s|
    ensures |r| == |s| && PrevIn(r[i], k) == v
  {
    s[i := WithPrevIn(s[i], k, v)]
  }

  lemma SetNextKeeps(s: seq<TEdge>, k: ListKind, i: int, v: int)
    requires 0 <= i < |s| && LinksInRange(s) && ValidLink(v, |s|)
    ensures LinksInRange(SetNext(s, k, i, v)) && OnlyLinksChanged(s, SetNext(s, k, i, v), k)
  {
    var r := SetNext(s, k, i, v);
    forall x | 0 <= x < |r|
      ensures EdgeLinksIn(r[x], |r|) && SameBut(s[x], r[x], k)
    {
      assert EdgeLinksIn(s[x], |s|);
    }
  }

  lemma SetPrevKeeps(s: seq<TEdge>, k: ListKind, i: int, v: int)
    requires 0 <= i < |s| && LinksInRange(s) && ValidLink(v, |s|)
    ensures LinksInRange(SetPrev(s, k, i, v)) && OnlyLinksChanged(s, SetPrev(s, k, i, v), k)
  {
    var r := SetPrev(s, k, i, v);
    forall x | 0 <= x < |r|
      ensures EdgeLinksIn(r[x], |r|) && SameBut(s[x], r[x], k)
    {
      assert EdgeLinksIn(s[x], |s|);
    }
  }

  /** The element at position `i`, or null off either end. */
  function At(order: seq<int>, i: int): int
  {
    if 0 <= i < |order| then order[i] else NULL
  }

  predicate Distinct(s: seq<int>)
  {
    forall i, j :: 0 <= i < j < |s| ==> s[i] != s[j]
  }

  /**
   * The `k` links of the arena thread exactly the members of `order`, in
   * that order: each member's next is the following member and its prev the
   * preceding one, null at the two ends.
   */
  predicate Chain(edges: seq<TEdge>, k: ListKind, order: seq<int>)
  {
    (forall i :: 0 <= i < |order| ==> 0 <= order[i] < |edges|) &&
    Distinct(order) &&
    (forall i {:trigger edges[order[i]]} :: 0 <= i < |order| ==> NextIn(edges[order[i]], k) == At(order, i + 1)) &&
    (forall i {:trigger edges[order[i]]} :: 0 <= i < |order| ==> PrevIn(edges[order[i]], k) == At(order, i - 1))
  }

  /** A well-formed list whose head pointer is `head`. */
  predicate Linked(edges: seq<TEdge>, k: ListKind, head: int, order: seq<int>)
  {
    Chain(edges, k, order) && head == At(order, 0)
  }

  /** In a chain of two or more, every member has a non-null link and two distinct links. */
  lemma MemberLinks(edges: seq<TEdge>, k: ListKind, order: seq<int>, p: int)
    requires Chain(edges, k, order) && |order| >= 2 && 0 <= p < |order|
    ensures !Detached(edges[order[p]], k)
    ensures NextIn(edges[order[p]], k) != PrevIn(edges[order[p]], k)
  {
    assert NextIn(edges[order[p]], k) == At(order, p + 1) && PrevIn(edges[order[p]], k) == At(order, p - 1);
    if 0 < p < |order| - 1 {
      assert order[p - 1] != order[p + 1];
    }
  }

  /**
   * The `k` links after `e` is unlinked from between `prev` and `next`:
   * `prev` now points forward to `next`, `next` back to `prev`, and every
   * other edge but `e` keeps its links.
   */
  predicate ListUnlinked(edges: seq<TEdge>, r: seq<TEdge>, k: ListKind, e: int, prev: int, next: int)
  {
    |r| == |edges| &&
    forall x {:trigger r[x]} :: 0 <= x < |edges| && x != e ==>
      NextIn(r[x], k) == (if x == prev then next else NextIn(edges[x], k)) &&
      PrevIn(r[x], k) == (if x == next then prev else PrevIn(edges[x], k))
  }

  lemma {:induction false} UnlinkedAt(edges: seq<TEdge>, r: seq<TEdge>, k: ListKind, order: seq<int>, p: int, i: int)
    requires Chain(edges, k, order) && 0 <= p < |order|
    requires ListUnlinked(edges, r, k, order[p], At(order, p - 1), At(order, p + 1))
    requires 0 <= i < |order| - 1
    ensures NextIn(r[order[Skip(i, p)]], k) == (if i + 1 < |order| - 1 then order[Skip(i + 1, p)] else NULL)
    ensures PrevIn(r[order[Skip(i, p)]], k) == (if i > 0 then order[Skip(i - 1, p)] else NULL)
  {
    var oi := Skip(i, p);
    var x := order[oi];
    assert NextIn(edges[order[oi]], k) == At(order, oi + 1) && PrevIn(edges[order[oi]], k) == At(order, oi - 1);
    assert x != order[p];
    assert NextIn(r[x], k) == (if x == At(order, p - 1) then At(order, p + 1) else NextIn(edges[x], k));
    assert PrevIn(r[x], k) == (if x == At(order, p + 1) then At(order, p - 1) else PrevIn(edges[x], k));
    if oi != p - 1 && p > 0 {
      assert x != order[p - 1];
    }
    if oi != p + 1 && p + 1 < |order| {
      assert x != order[p + 1];
    }
  }

  /** Unlinking the member at position `p` leaves the chain of the other members. */
  lemma {:induction false} UnlinkedChain(edges: seq<TEdge>, r: seq<TEdge>, k: ListKind, order: seq<int>, p: int)
    requires Chain(edges, k, order) && 0 <= p < |order|
    requires ListUnlinked(edges, r, k, order[p], At(order, p - 1), At(order, p + 1))
    ensures Chain(r, k, order[..p] + order[p + 1..])
  {
    var s := order[..p] + order[p + 1..];
    TakeOutDistinct(order, p);
    forall i | 0 <= i < |s|
      ensures 0 <= s[i] < |r|
      ensures NextIn(r[s[i]], k) == At(s, i + 1) && PrevIn(r[s[i]], k) == At(s, i - 1)
    {
      UnlinkedAt(edges, r, k, order, p, i);
      TakeOutAt(order, p, i);
      if i + 1 < |s| {
        TakeOutAt(order, p, i + 1);
      }
      if i > 0 {
        TakeOutAt(order, p, i - 1);
      }
    }
  }

  /** The arena after unlinking `e`, written out: the writes `deleteFromAEL`/`deleteFromSEL` make. */
  function UnlinkWrites(edges: seq<TEdge>, k: ListKind, e: int): (r: seq<TEdge>)
    requires 0 <= e < |edges| && LinksInRange(edges)
    ensures |r| == |edges|
  {
    var prev, next := PrevIn(edges[e], k), NextIn(edges[e], k);
    assert EdgeLinksIn(edges[e], |edges|);
    var a := if prev != NULL then SetNext(edges, k, prev, next) else edges;
    var b := if next != NULL then SetPrev(a, k, next, prev) else a;
    SetPrev(SetNext(b, k, e, NULL), k, e, NULL)
  }

  lemma {:induction false} UnlinkWritesAt(edges: seq<TEdge>, k: ListKind, e: int, x: int)
    requires 0 <= e < |edges| && LinksInRange(edges) && 0 <= x < |edges|
    ensures var r := UnlinkWrites(edges, k, e);
      var prev, next := PrevIn(edges[e], k), NextIn(edges[e], k);
      (x == e ==> Detached(r[x], k)) &&
      (x != e ==>
        NextIn(r[x], k) == (if x == prev then next else NextIn(edges[x], k)) &&
        PrevIn(r[x], k) == (if x == next then prev else PrevIn(edges[x], k)))
  {
    assert EdgeLinksIn(edges[e], |edges|);
  }

  lemma {:induction false} UnlinkWritesFrame(edges: seq<TEdge>, k: ListKind, e: int)
    requires 0 <= e < |edges| && LinksInRange(edges)
    ensures LinksInRange(UnlinkWrites(edges, k, e)) && OnlyLinksChanged(edges, UnlinkWrites(edges, k, e), k)
  {
    var prev, next := PrevIn(edges[e], k), NextIn(edges[e], k);
    assert EdgeLinksIn(edges[e], |edges|);
    var a := edges;
    if prev != NULL {
      a := SetNext(edges, k, prev, next);
      SetNextKeeps(edges, k, prev, next);
    } else {
      assert OnlyLinksChanged(edges, a, k);
    }
    var b := a;
    if next != NULL {
      b := SetPrev(a, k, next, prev);
      SetPrevKeeps(a, k, next, prev);
      OnlyLinksChangedTrans(edges, a, b, k);
    }
    var c := SetNext(b, k, e, NULL);
    SetNextKeeps(b, k, e, NULL);
    OnlyLinksChangedTrans(edges, b, c, k);
    var r := SetPrev(c, k, e, NULL);
    SetPrevKeeps(c, k, e, NULL);
    OnlyLinksChangedTrans(edges, c, r, k);
    assert r == UnlinkWrites(edges, k, e);
  }

  lemma UnlinkWritesFacts(edges: seq<TEdge>, k: ListKind, e: int)
    requires 0 <= e < |edges| && LinksInRange(edges)
    ensures var r := UnlinkWrites(edges, k, e);
      LinksInRange(r) && Detached(r[e], k) && OnlyLinksChanged(edges, r, k) &&
      ListUnlinked(edges, r, k, e, PrevIn(edges[e], k), NextIn(edges[e], k))
  {
    var r := UnlinkWrites(edges, k, e);
    UnlinkWritesFrame(edges, k, e);
    UnlinkWritesAt(edges, k, e, e);
    forall x | 0 <= x < |edges| && x != e
      ensures NextIn(r[x], k) == (if x == PrevIn(edges[e], k) then NextIn(edges[e], k) else NextIn(edges[x], k))
      ensures PrevIn(r[x], k) == (if x == NextIn(edges[e], k) then PrevIn(edges[e], k) else PrevIn(edges[x], k))
    {
      UnlinkWritesAt(edges, k, e, x);
    }
  }

  /**
   * `deleteFromAEL` / `deleteFromSEL` (the same code on different links):
   * unlink the edge, null both its links and return the new head.  An edge
   * that is already detached and is not the head leaves everything as it is.
   */
  method DeleteFrom(edges: seq<TEdge>, k: ListKind, e: int, head: int, ghost order: seq<int>, ghost p: int)
    returns (r: seq<TEdge>, newHead: int)
    requires 0 <= e < |edges| && LinksInRange(edges) && ValidLink(head, |edges|)
    ensures |r| == |edges| && LinksInRange(r) && ValidLink(newHead, |r|)
    ensures Detached(edges[e], k) && e != head ==> r == edges && newHead == head
    ensures !(Detached(edges[e], k) && e != head) ==>
      Detached(r[e], k) &&
      newHead == (if PrevIn(edges[e], k) == NULL then NextIn(edges[e], k) else head) &&
      ListUnlinked(edges, r, k, e, PrevIn(edges[e], k), NextIn(edges[e], k))
    ensures OnlyLinksChanged(edges, r, k)
    ensures Linked(edges, k, head, order) && 0 <= p < |order| && order[p] == e ==>
      Linked(r, k, newHead, order[..p] + order[p + 1..])
  {
    var edge := edges[e];
    if Detached(edge, k) && e != head {
      return edges, head;
    }
    var prev, next := PrevIn(edge, k), NextIn(edge, k);
    assert EdgeLinksIn(edge, |edges|);
    r, newHead := edges, head;
    if prev != NULL {
      r := SetNext(r, k, prev, next);
    } else {
      newHead := next;
    }
    if next != NULL {
      r := SetPrev(r, k, next, prev);
    }
    r := SetNext(r, k, e, NULL);
    r := SetPrev(r, k, e, NULL);
    assert r == UnlinkWrites(edges, k, e);
    UnlinkWritesFacts(edges, k, e);
    if Linked(edges, k, head, order) && 0 <= p < |order| && order[p] == e {
      HeadAfterUnlink(edges, r, k, head, order, p, newHead);
    }
  }

  lemma HeadAfterUnlink(edges: seq<TEdge>, r: seq<TEdge>, k: ListKind, head: int, order: seq<int>, p: int, newHead: int)
    requires Linked(edges, k, head, order) && 0 <= p < |order|
    requires ListUnlinked(edges, r, k, order[p], PrevIn(edges[order[p]], k), NextIn(edges[order[p]], k))
    requires newHead == (if PrevIn(edges[order[p]], k) == NULL then NextIn(edges[order[p]], k) else head)
    ensures Linked(r, k, newHead, order[..p] + order[p + 1..])
  {
    assert PrevIn(edges[order[p]], k) == At(order, p - 1) && NextIn(edges[order[p]], k) == At(order, p + 1);
    UnlinkedChain(edges, r, k, order, p);
    var s := order[..p] + order[p + 1..];
    if |s| > 0 {
      TakeOutAt(order, p, 0);
    }
  }

  /** The guard of `swapPositionsInAEL` / `swapPositionsInSEL`: the edge counts as not on the list. */
  predicate Refuses(e: TEdge, k: ListKind)
  {
    match k
    case AEL => e.NextInAEL == e.PrevInAEL
    case SEL => e.NextInSEL == NULL && e.PrevInSEL == NULL
  }

  /** The writes of the branch where `e2` directly follows `e1`. */
  function SwapAdjacent(edges: seq<TEdge>, k: ListKind, e1: int, e2: int): (r: seq<TEdge>)
    requires 0 <= e1 < |edges| && 0 <= e2 < |edges| && LinksInRange(edges)
    ensures |r| == |edges|
  {
    var next := NextIn(edges[e2], k);
    assert ValidLink(next, |edges|) by { assert EdgeLinksIn(edges[e2], |edges|); }
    var a := if next != NULL then SetPrev(edges, k, next, e1) else edges;
    var prev := PrevIn(a[e1], k);
    assert ValidLink(prev, |a|) by { assert EdgeLinksIn(edges[e1], |edges|); }
    var b := if prev != NULL then SetNext(a, k, prev, e2) else a;
    var c := SetPrev(b, k, e2, prev);
    var d := SetNext(c, k, e2, e1);
    var f := SetPrev(d, k, e1, e2);
    SetNext(f, k, e1, next)
  }

  lemma {:induction false} SwapAdjacentFrame(edges: seq<TEdge>, k: ListKind, e1: int, e2: int)
    requires 0 <= e1 < |edges| && 0 <= e2 < |edges| && LinksInRange(edges)
    ensures LinksInRange(SwapAdjacent(edges, k, e1, e2))
    ensures OnlyLinksChanged(edges, SwapAdjacent(edges, k, e1, e2), k)
  {
    var next := NextIn(edges[e2], k);
    assert EdgeLinksIn(edges[e2], |edges|) && EdgeLinksIn(edges[e1], |edges|);
    var a := edges;
    if next != NULL {
      a := SetPrev(edges, k, next, e1);
      SetPrevKeeps(edges, k, next, e1);
    } else {
      assert OnlyLinksChanged(edges, a, k);
    }
    var prev := PrevIn(a[e1], k);
    assert EdgeLinksIn(a[e1], |a|);
    var b := a;
    if prev != NULL {
      b := SetNext(a, k, prev, e2);
      SetNextKeeps(a, k, prev, e2);
      OnlyLinksChangedTrans(edges, a, b, k);
    }
    var c := SetPrev(b, k, e2, prev);
    SetPrevKeeps(b, k, e2, prev);
    OnlyLinksChangedTrans(edges, b, c, k);
    var d := SetNext(c, k, e2, e1);
    SetNextKeeps(c, k, e2, e1);
    OnlyLinksChangedTrans(edges, c, d, k);
    var f := SetPrev(d, k, e1, e2);
    SetPrevKeeps(d, k, e1, e2);
    OnlyLinksChangedTrans(edges, d, f, k);
    var r := SetNext(f, k, e1, next);
    SetNextKeeps(f, k, e1, next);
    OnlyLinksChangedTrans(edges, f, r, k);
    assert r == SwapAdjacent(edges, k, e1, e2);
  }

  /**
   * The first half of the branch where the two edges are not neighbours:
   * `e1` takes over `e2`'s links and its new neighbours point back at it.
   */
  function SwapApartFirst(edges: seq<TEdge>, k: ListKind, e1: int, e2: int): (d: seq<TEdge>)
    requires 0 <= e1 < |edges| && 0 <= e2 < |edges| && LinksInRange(edges)
    ensures |d| == |edges|
  {
    assert EdgeLinksIn(edges[e2], |edges|);
    var a := SetNext(edges, k, e1, NextIn(edges[e2], k));
    var n1 := NextIn(a[e1], k);
    var b := if n1 != NULL then SetPrev(a, k, n1, e1) else a;
    var p1 := PrevIn(b[e2], k);
    assert ValidLink(p1, |b|);
    var c := SetPrev(b, k, e1, p1);
    if p1 != NULL then SetNext(c, k, p1, e1) else c
  }

  /** The second half: `e2` takes the links `next`/`prev` that `e1` had, and they point back at it. */
  function SwapApartSecond(d: seq<TEdge>, k: ListKind, e2: int, next: int, prev: int): (r: seq<TEdge>)
    requires 0 <= e2 < |d| && ValidLink(next, |d|) && ValidLink(prev, |d|)
    ensures |r| == |d|
  {
    var f := SetNext(d, k, e2, next);
    var g := if next != NULL then SetPrev(f, k, next, e2) else f;
    var h := SetPrev(g, k, e2, prev);
    if prev != NULL then SetNext(h, k, prev, e2) else h
  }

  /** The writes of the branch where the two edges are not neighbours. */
  function SwapApart(edges: seq<TEdge>, k: ListKind, e1: int, e2: int): (r: seq<TEdge>)
    requires 0 <= e1 < |edges| && 0 <= e2 < |edges| && LinksInRange(edges)
    ensures |r| == |edges|
  {
    assert EdgeLinksIn(edges[e1], |edges|);
    SwapApartSecond(SwapApartFirst(edges, k, e1, e2), k, e2, NextIn(edges[e1], k), PrevIn(edges[e1], k))
  }

  /** The first half changes nothing but `k` links, and only to indices already in range. */
  lemma {:induction false} SwapApartFirstFrame(edges: seq<TEdge>, k: ListKind, e1: int, e2: int)
    requires 0 <= e1 < |edges| && 0 <= e2 < |edges| && LinksInRange(edges)
    ensures LinksInRange(SwapApartFirst(edges, k, e1, e2))
    ensures OnlyLinksChanged(edges, SwapApartFirst(edges, k, e1, e2), k)
  {
    assert EdgeLinksIn(edges[e2], |edges|);
    var a := SetNext(edges, k, e1, NextIn(edges[e2], k));
    SetNextKeeps(edges, k, e1, NextIn(edges[e2], k));
    var n1 := NextIn(a[e1], k);
    assert EdgeLinksIn(a[e1], |a|);
    var b := a;
    if n1 != NULL {
      b := SetPrev(a, k, n1, e1);
      SetPrevKeeps(a, k, n1, e1);
      OnlyLinksChangedTrans(edges, a, b, k);
    }
    var p1 := PrevIn(b[e2], k);
    assert EdgeLinksIn(b[e2], |b|);
    var c := SetPrev(b, k, e1, p1);
    SetPrevKeeps(b, k, e1, p1);
    OnlyLinksChangedTrans(edges, b, c, k);
    var d := c;
    if p1 != NULL {
      d := SetNext(c, k, p1, e1);
      SetNextKeeps(c, k, p1, e1);
      OnlyLinksChangedTrans(edges, c, d, k);
    }
    assert d == SwapApartFirst(edges, k, e1, e2);
  }

  /** The second half changes nothing but `k` links, and only to indices already in range. */
  lemma {:induction false} SwapApartSecondFrame(d: seq<TEdge>, k: ListKind, e2: int, next: int, prev: int)
    requires 0 <= e2 < |d| && ValidLink(next, |d|) && ValidLink(prev, |d|) && LinksInRange(d)
    ensures LinksInRange(SwapApartSecond(d, k, e2, next, prev))
    ensures OnlyLinksChanged(d, SwapApartSecond(d, k, e2, next, prev), k)
  {
    var f := SetNext(d, k, e2, next);
    SetNextKeeps(d, k, e2, next);
    var g := f;
    if next != NULL {
      g := SetPrev(f, k, next, e2);
      SetPrevKeeps(f, k, next, e2);
      OnlyLinksChangedTrans(d, f, g, k);
    }
    var h := SetPrev(g, k, e2, prev);
    SetPrevKeeps(g, k, e2, prev);
    OnlyLinksChangedTrans(d, g, h, k);
    var r := h;
    if prev != NULL {
      r := SetNext(h, k, prev, e2);
      SetNextKeeps(h, k, prev, e2);
      OnlyLinksChangedTrans(d, h, r, k);
    }
    assert r == SwapApartSecond(d, k, e2, next, prev);
  }

  /** Both halves together change nothing but `k` links. */
  lemma SwapApartFrame(edges: seq<TEdge>, k: ListKind, e1: int, e2: int)
    requires 0 <= e1 < |edges| && 0 <= e2 < |edges| && LinksInRange(edges)
    ensures LinksInRange(SwapApart(edges, k, e1, e2))
    ensures OnlyLinksChanged(edges, SwapApart(edges, k, e1, e2), k)
  {
    assert EdgeLinksIn(edges[e1], |edges|);
    var d := SwapApartFirst(edges, k, e1, e2);
    SwapApartFirstFrame(edges, k, e1, e2);
    SwapApartSecondFrame(d, k, e2, NextIn(edges[e1], k), PrevIn(edges[e1], k));
    OnlyLinksChangedTrans(edges, d, SwapApart(edges, k, e1, e2), k);
  }

  lemma {:induction false} SwapApartFirstAt(edges: seq<TEdge>, k: ListKind, e1: int, e2: int, x: int)
    requires 0 <= e1 < |edges| && 0 <= e2 < |edges| && LinksInRange(edges) && 0 <= x < |edges|
    requires e1 != e2
    requires NextIn(edges[e2], k) != e1 && PrevIn(edges[e2], k) != e1
    requires NextIn(edges[e2], k) != e2 && PrevIn(edges[e2], k) != e2
    requires NextIn(edges[e2], k) != NULL ==> NextIn(edges[e2], k) != PrevIn(edges[e2], k)
    ensures var d := SwapApartFirst(edges, k, e1, e2);
      var n2, p2 := NextIn(edges[e2], k), PrevIn(edges[e2], k);
      |d| == |edges| &&
      NextIn(d[x], k) == (if x == e1 then n2 else if x == p2 then e1 else NextIn(edges[x], k)) &&
      PrevIn(d[x], k) == (if x == e1 then p2 else if x == n2 then e1 else PrevIn(edges[x], k))
  {
    assert EdgeLinksIn(edges[e2], |edges|);
  }

  lemma {:induction false} SwapApartSecondAt(d: seq<TEdge>, k: ListKind, e2: int, next: int, prev: int, x: int)
    requires 0 <= e2 < |d| && ValidLink(next, |d|) && ValidLink(prev, |d|) && 0 <= x < |d|
    requires next != e2 && prev != e2 && (next != NULL ==> next != prev)
    ensures var r := SwapApartSecond(d, k, e2, next, prev);
      |r| == |d| &&
      NextIn(r[x], k) == (if x == e2 then next else if x == prev then e2 else NextIn(d[x], k)) &&
      PrevIn(r[x], k) == (if x == e2 then prev else if x == next then e2 else PrevIn(d[x], k))
  {
  }

  /**
   * The `k` links once the members at positions `lo < hi` have traded
   * places: the neighbours of each position now point at the other edge,
   * and the two edges take over each other's neighbours.
   */
  predicate Swapped(edges: seq<TEdge>, r: seq<TEdge>, k: ListKind, order: seq<int>, lo: int, hi: int)
    requires 0 <= lo < hi < |order|
  {
    var e1, e2 := order[lo], order[hi];
    |r| == |edges| && 0 <= e1 < |r| && 0 <= e2 < |r| &&
    NextIn(r[e1], k) == At(order, hi + 1) &&
    PrevIn(r[e1], k) == (if hi == lo + 1 then e2 else At(order, hi - 1)) &&
    PrevIn(r[e2], k) == At(order, lo - 1) &&
    NextIn(r[e2], k) == (if hi == lo + 1 then e1 else At(order, lo + 1)) &&
    forall x {:trigger r[x]} :: 0 <= x < |edges| && x != e1 && x != e2 ==>
      NextIn(r[x], k) == (if x == At(order, lo - 1) then e2 else if x == At(order, hi - 1) then e1 else NextIn(edges[x], k)) &&
      PrevIn(r[x], k) == (if x == At(order, lo + 1) then e2 else if x == At(order, hi + 1) then e1 else PrevIn(edges[x], k))
  }

  /** Position `i` after the members at `lo` and `hi` swap. */
  function SwapPos(i: int, lo: int, hi: int): int
  {
    if i == lo then hi else if i == hi then lo else i
  }

  lemma {:induction false} SwappedAt(edges: seq<TEdge>, r: seq<TEdge>, k: ListKind, order: seq<int>, lo: int, hi: int, i: int)
    requires Chain(edges, k, order) && 0 <= lo < hi < |order| && Swapped(edges, r, k, order, lo, hi)
    requires 0 <= i < |order|
    ensures var t := order[lo := order[hi]][hi := order[lo]];
      NextIn(r[t[i]], k) == At(t, i + 1) && PrevIn(r[t[i]], k) == At(t, i - 1)
  {
    var t := order[lo := order[hi]][hi := order[lo]];
    if i != lo && i != hi {
      var x := order[i];
      assert t[i] == x && x != order[lo] && x != order[hi];
      assert NextIn(edges[order[i]], k) == At(order, i + 1) && PrevIn(edges[order[i]], k) == At(order, i - 1);
      if i + 1 != lo && lo > 0 {
        assert x != order[lo - 1];
      }
      if i + 1 != hi {
        assert x != order[hi - 1];
      }
      if i - 1 != lo && lo + 1 < |order| {
        assert x != order[lo + 1];
      }
      if i - 1 != hi && hi + 1 < |order| {
        assert x != order[hi + 1];
      }
    }
  }

  /** Trading the members at `lo` and `hi` leaves a chain with the two exchanged. */
  lemma {:induction false} SwappedChain(edges: seq<TEdge>, r: seq<TEdge>, k: ListKind, order: seq<int>, lo: int, hi: int)
    requires Chain(edges, k, order) && 0 <= lo < hi < |order| && Swapped(edges, r, k, order, lo, hi)
    ensures Chain(r, k, order[lo := order[hi]][hi := order[lo]])
  {
    var t := order[lo := order[hi]][hi := order[lo]];
    forall i, j | 0 <= i < j < |t|
      ensures t[i] != t[j]
    {
      assert t[i] == order[SwapPos(i, lo, hi)] && t[j] == order[SwapPos(j, lo, hi)];
    }
    forall i | 0 <= i < |t|
      ensures 0 <= t[i] < |r|
      ensures NextIn(r[t[i]], k) == At(t, i + 1) && PrevIn(r[t[i]], k) == At(t, i - 1)
    {
      SwappedAt(edges, r, k, order, lo, hi, i);
    }
  }

  /**
   * The links one edge ends up with after `SwapApart`, for two edges whose
   * neighbours are four edges other than themselves.
   */
  lemma {:induction false} SwapApartLinks(edges: seq<TEdge>, k: ListKind, e1: int, e2: int, x: int)
    requires 0 <= e1 < |edges| && 0 <= e2 < |edges| && LinksInRange(edges) && 0 <= x < |edges|
    requires e1 != e2
    requires var n1, p1, n2, p2 := NextIn(edges[e1], k), PrevIn(edges[e1], k), NextIn(edges[e2], k), PrevIn(edges[e2], k);
      n1 != e1 && n1 != e2 && p1 != e1 && p1 != e2 && n2 != e1 && n2 != e2 && p2 != e1 && p2 != e2 &&
      (n1 != NULL ==> n1 != p1) && (n2 != NULL ==> n2 != p2)
    ensures var r := SwapApart(edges, k, e1, e2);
      var n1, p1, n2, p2 := NextIn(edges[e1], k), PrevIn(edges[e1], k), NextIn(edges[e2], k), PrevIn(edges[e2], k);
      (x == e1 ==> NextIn(r[x], k) == n2 && PrevIn(r[x], k) == p2) &&
      (x == e2 ==> NextIn(r[x], k) == n1 && PrevIn(r[x], k) == p1) &&
      (x != e1 && x != e2 ==>
        NextIn(r[x], k) == (if x == p1 then e2 else if x == p2 then e1 else NextIn(edges[x], k)) &&
        PrevIn(r[x], k) == (if x == n1 then e2 else if x == n2 then e1 else PrevIn(edges[x], k)))
  {
    assert EdgeLinksIn(edges[e1], |edges|);
    var d := SwapApartFirst(edges, k, e1, e2);
    var n1, p1 := NextIn(edges[e1], k), PrevIn(edges[e1], k);
    assert SwapApart(edges, k, e1, e2) == SwapApartSecond(d, k, e2, n1, p1);
    SwapApartFirstAt(edges, k, e1, e2, x);
    SwapApartSecondAt(d, k, e2, n1, p1, x);
  }

  /** The links one edge ends up with after `SwapApart` on two members at least two apart. */
  lemma {:induction false} SwapApartAt(edges: seq<TEdge>, k: ListKind, order: seq<int>, p1: int, p2: int, x: int)
    requires LinksInRange(edges) && Chain(edges, k, order)
    requires 0 <= p1 < |order| && 0 <= p2 < |order| && (p1 + 2 <= p2 || p2 + 2 <= p1)
    requires 0 <= x < |edges|
    ensures var r := SwapApart(edges, k, order[p1], order[p2]);
      var e1, e2 := order[p1], order[p2];
      (x == e1 ==> NextIn(r[x], k) == At(order, p2 + 1) && PrevIn(r[x], k) == At(order, p2 - 1)) &&
      (x == e2 ==> NextIn(r[x], k) == At(order, p1 + 1) && PrevIn(r[x], k) == At(order, p1 - 1)) &&
      (x != e1 && x != e2 ==>
        NextIn(r[x], k) == (if x == At(order, p1 - 1) then e2 else if x == At(order, p2 - 1) then e1 else NextIn(edges[x], k)) &&
        PrevIn(r[x], k) == (if x == At(order, p1 + 1) then e2 else if x == At(order, p2 + 1) then e1 else PrevIn(edges[x], k)))
  {
    var e1, e2 := order[p1], order[p2];
    assert NextIn(edges[order[p1]], k) == At(order, p1 + 1) && PrevIn(edges[order[p1]], k) == At(order, p1 - 1);
    assert NextIn(edges[order[p2]], k) == At(order, p2 + 1) && PrevIn(edges[order[p2]], k) == At(order, p2 - 1);
    assert e1 != e2;
    assert At(order, p1 - 1) != e1 && At(order, p1 - 1) != e2 && At(order, p1 + 1) != e1 && At(order, p1 + 1) != e2;
    assert At(order, p2 - 1) != e1 && At(order, p2 - 1) != e2 && At(order, p2 + 1) != e1 && At(order, p2 + 1) != e2;
    assert At(order, p1 + 1) != NULL ==> At(order, p1 + 1) != At(order, p1 - 1);
    assert At(order, p2 + 1) != NULL ==> At(order, p2 + 1) != At(order, p2 - 1);
    SwapApartLinks(edges, k, e1, e2, x);
  }

  /** The links one edge ends up with after `SwapAdjacent` on the members at `p` and `p + 1`. */
  lemma {:induction false} SwapAdjacentAt(edges: seq<TEdge>, k: ListKind, order: seq<int>, p: int, x: int)
    requires LinksInRange(edges) && Chain(edges, k, order)
    requires 0 <= p && p + 1 < |order| && 0 <= x < |edges|
    ensures var r := SwapAdjacent(edges, k, order[p], order[p + 1]);
      var e1, e2 := order[p], order[p + 1];
      |r| == |edges| &&
      (x == e1 ==> NextIn(r[x], k) == At(order, p + 2) && PrevIn(r[x], k) == e2) &&
      (x == e2 ==> NextIn(r[x], k) == e1 && PrevIn(r[x], k) == At(order, p - 1)) &&
      (x != e1 && x != e2 ==>
        NextIn(r[x], k) == (if x == At(order, p - 1) then e2 else NextIn(edges[x], k)) &&
        PrevIn(r[x], k) == (if x == At(order, p + 2) then e1 else PrevIn(edges[x], k)))
  {
    var e1, e2 := order[p], order[p + 1];
    assert NextIn(edges[order[p]], k) == At(order, p + 1) && PrevIn(edges[order[p]], k) == At(order, p - 1);
    assert NextIn(edges[order[p + 1]], k) == At(order, p + 2) && PrevIn(edges[order[p + 1]], k) == At(order, p);
    assert e1 != e2;
    assert At(order, p - 1) != e1 && At(order, p - 1) != e2 && At(order, p + 2) != e1 && At(order, p + 2) != e2;
  }

  /** `SwapAdjacent` on the members at `p` and `p + 1` trades their places. */
  lemma {:induction false} SwapAdjacentSwaps(edges: seq<TEdge>, k: ListKind, order: seq<int>, p: int)
    requires LinksInRange(edges) && Chain(edges, k, order) && 0 <= p && p + 1 < |order|
    ensures Swapped(edges, SwapAdjacent(edges, k, order[p], order[p + 1]), k, order, p, p + 1)
  {
    var r := SwapAdjacent(edges, k, order[p], order[p + 1]);
    SwapAdjacentAt(edges, k, order, p, order[p]);
    SwapAdjacentAt(edges, k, order, p, order[p + 1]);
    forall x | 0 <= x < |edges| && x != order[p] && x != order[p + 1]
      ensures NextIn(r[x], k) == (if x == At(order, p - 1) then order[p + 1] else if x == At(order, p) then order[p] else NextIn(edges[x], k))
      ensures PrevIn(r[x], k) == (if x == At(order, p + 1) then order[p + 1] else if x == At(order, p + 2) then order[p] else PrevIn(edges[x], k))
    {
      SwapAdjacentAt(edges, k, order, p, x);
    }
  }

  /** `SwapApart` on two members at least two apart, in either order, trades their places. */
  lemma {:induction false} SwapApartSwaps(edges: seq<TEdge>, k: ListKind, order: seq<int>, p1: int, p2: int)
    requires LinksInRange(edges) && Chain(edges, k, order)
    requires 0 <= p1 < |order| && 0 <= p2 < |order| && (p1 + 2 <= p2 || p2 + 2 <= p1)
    ensures p1 < p2 ==> Swapped(edges, SwapApart(edges, k, order[p1], order[p2]), k, order, p1, p2)
    ensures p2 < p1 ==> Swapped(edges, SwapApart(edges, k, order[p1], order[p2]), k, order, p2, p1)
  {
    var r := SwapApart(edges, k, order[p1], order[p2]);
    SwapApartAt(edges, k, order, p1, p2, order[p1]);
    SwapApartAt(edges, k, order, p1, p2, order[p2]);
    forall x | 0 <= x < |edges| && x != order[p1] && x != order[p2]
      ensures NextIn(r[x], k) == (if x == At(order, p1 - 1) then order[p2] else if x == At(order, p2 - 1) then order[p1] else NextIn(edges[x], k))
      ensures PrevIn(r[x], k) == (if x == At(order, p1 + 1) then order[p2] else if x == At(order, p2 + 1) then order[p1] else PrevIn(edges[x], k))
      ensures x == At(order, p1 - 1) ==> x != At(order, p2 - 1)
      ensures x == At(order, p1 + 1) ==> x != At(order, p2 + 1)
    {
      SwapApartAt(edges, k, order, p1, p2, x);
    }
  }

  /** The writes `swapPositionsInAEL` / `swapPositionsInSEL` make once neither edge refuses. */
  function SwapWrites(edges: seq<TEdge>, k: ListKind, e1: int, e2: int): (r: seq<TEdge>)
    requires 0 <= e1 < |edges| && 0 <= e2 < |edges| && LinksInRange(edges)
    ensures |r| == |edges|
  {
    if NextIn(edges[e1], k) == e2 then SwapAdjacent(edges, k, e1, e2)
    else if NextIn(edges[e2], k) == e1 then SwapAdjacent(edges, k, e2, e1)
    else SwapApart(edges, k, e1, e2)
  }

  lemma SwapWritesFrame(edges: seq<TEdge>, k: ListKind, e1: int, e2: int)
    requires 0 <= e1 < |edges| && 0 <= e2 < |edges| && LinksInRange(edges)
    ensures LinksInRange(SwapWrites(edges, k, e1, e2)) && OnlyLinksChanged(edges, SwapWrites(edges, k, e1, e2), k)
  {
    if NextIn(edges[e1], k) == e2 {
      SwapAdjacentFrame(edges, k, e1, e2);
    } else if NextIn(edges[e2], k) == e1 {
      SwapAdjacentFrame(edges, k, e2, e1);
    } else {
      SwapApartFrame(edges, k, e1, e2);
    }
  }

  /** The two ways of writing the exchange of positions `i` and `j` agree. */
  lemma ExchangeSymmetric(order: seq<int>, i: int, j: int)
    requires 0 <= i < |order| && 0 <= j < |order| && i != j
    ensures order[i := order[j]][j := order[i]] == order[j := order[i]][i := order[j]]
  {
  }

  /** Whichever branch two distinct members of a chain take, the links end up `Swapped`. */
  lemma {:induction false} SwapWritesSwapped(edges: seq<TEdge>, k: ListKind, order: seq<int>, p1: int, p2: int)
    requires LinksInRange(edges) && Chain(edges, k, order)
    requires 0 <= p1 < p2 < |order|
    ensures Swapped(edges, SwapWrites(edges, k, order[p1], order[p2]), k, order, p1, p2)
    ensures Swapped(edges, SwapWrites(edges, k, order[p2], order[p1]), k, order, p1, p2)
  {
    assert NextIn(edges[order[p1]], k) == At(order, p1 + 1);
    assert NextIn(edges[order[p2]], k) == At(order, p2 + 1);
    assert order[p1] != order[p2];
    if p2 == p1 + 1 {
      SwapAdjacentSwaps(edges, k, order, p1);
    } else {
      assert order[p1 + 1] != order[p2];
      assert p2 + 1 < |order| ==> order[p2 + 1] != order[p1];
      SwapApartSwaps(edges, k, order, p1, p2);
      SwapApartSwaps(edges, k, order, p2, p1);
    }
  }

  /**
   * Whichever branch the two distinct members of a chain take, they trade
   * places and the rest of the chain is untouched.
   */
  lemma {:induction false} SwapWritesChain(edges: seq<TEdge>, k: ListKind, order: seq<int>, p1: int, p2: int)
    requires LinksInRange(edges) && Chain(edges, k, order)
    requires 0 <= p1 < |order| && 0 <= p2 < |order| && p1 != p2
    ensures Chain(SwapWrites(edges, k, order[p1], order[p2]), k, order[p1 := order[p2]][p2 := order[p1]])
  {
    var r := SwapWrites(edges, k, order[p1], order[p2]);
    if p1 < p2 {
      SwapWritesSwapped(edges, k, order, p1, p2);
      SwappedChain(edges, r, k, order, p1, p2);
    } else {
      SwapWritesSwapped(edges, k, order, p2, p1);
      SwappedChain(edges, r, k, order, p2, p1);
      ExchangeSymmetric(order, p1, p2);
    }
  }

  /** The writes of the adjacent branch, in the order the source makes them. */
  method SwapAdjacentSteps(edges: seq<TEdge>, k: ListKind, e1: int, e2: int) returns (r: seq<TEdge>)
    requires 0 <= e1 < |edges| && 0 <= e2 < |edges| && LinksInRange(edges)
    ensures r == SwapAdjacent(edges, k, e1, e2)
  {
    assert EdgeLinksIn(edges[e1], |edges|) && EdgeLinksIn(edges[e2], |edges|);
    r := edges;
    var next := NextIn(r[e2], k);
    if next != NULL {
      r := SetPrev(r, k, next, e1);
    }
    var prev := PrevIn(r[e1], k);
    if prev != NULL {
      r := SetNext(r, k, prev, e2);
    }
    r := SetPrev(r, k, e2, prev);
    r := SetNext(r, k, e2, e1);
    r := SetPrev(r, k, e1, e2);
    r := SetNext(r, k, e1, next);
  }

  /** The writes of the general branch, in the order the source makes them. */
  method SwapApartSteps(edges: seq<TEdge>, k: ListKind, e1: int, e2: int) returns (r: seq<TEdge>)
    requires 0 <= e1 < |edges| && 0 <= e2 < |edges| && LinksInRange(edges)
    ensures r == SwapApart(edges, k, e1, e2)
  {
    assert EdgeLinksIn(edges[e1], |edges|) && EdgeLinksIn(edges[e2], |edges|);
    r := edges;
    var next, prev := NextIn(r[e1], k), PrevIn(r[e1], k);
    r := SetNext(r, k, e1, NextIn(r[e2], k));
    if NextIn(r[e1], k) != NULL {
      r := SetPrev(r, k, NextIn(r[e1], k), e1);
    }
    r := SetPrev(r, k, e1, PrevIn(r[e2], k));
    if PrevIn(r[e1], k) != NULL {
      r := SetNext(r, k, PrevIn(r[e1], k), e1);
    }
    assert r == SwapApartFirst(edges, k, e1, e2);
    r := SetNext(r, k, e2, next);
    if NextIn(r[e2], k) != NULL {
      r := SetPrev(r, k, NextIn(r[e2], k), e2);
    }
    r := SetPrev(r, k, e2, prev);
    if PrevIn(r[e2], k) != NULL {
      r := SetNext(r, k, PrevIn(r[e2], k), e2);
    }
  }

  /**
   * `swapPositionsInAEL` / `swapPositionsInSEL`: exchange two edges' places
   * in the list.  It refuses, changing nothing, when either edge counts as
   * not on the list (`Refuses`); otherwise it rewires the two edges and
   * their neighbours, taking the adjacent branch when one edge directly
   * follows the other.
   */
  method SwapPositions(edges: seq<TEdge>, k: ListKind, e1: int, e2: int, ghost order: seq<int>, ghost p1: int, ghost p2: int)
    returns (r: seq<TEdge>, ok: bool)
    requires 0 <= e1 < |edges| && 0 <= e2 < |edges| && LinksInRange(edges)
    ensures |r| == |edges| && LinksInRange(r) && OnlyLinksChanged(edges, r, k)
    ensures ok <==> !Refuses(edges[e1], k) && !Refuses(edges[e2], k)
    ensures !ok ==> r == edges
    ensures Chain(edges, k, order) && 0 <= p1 < |order| && 0 <= p2 < |order| && p1 != p2 && order[p1] == e1 && order[p2] == e2 ==>
      ok && Chain(r, k, order[p1 := e2][p2 := e1])
  {
    if Refuses(edges[e1], k) || Refuses(edges[e2], k) {
      assert OnlyLinksChanged(edges, edges, k);
      return edges, false;
    }
    ok := true;
    if NextIn(edges[e1], k) == e2 {
      r := SwapAdjacentSteps(edges, k, e1, e2);
    } else if NextIn(edges[e2], k) == e1 {
      r := SwapAdjacentSteps(edges, k, e2, e1);
    } else {
      r := SwapApartSteps(edges, k, e1, e2);
    }
    assert r == SwapWrites(edges, k, e1, e2);
    SwapWritesFrame(edges, k, e1, e2);
    if Chain(edges, k, order) && 0 <= p1 < |order| && 0 <= p2 < |order| && p1 != p2 && order[p1] == e1 && order[p2] == e2 {
      MemberLinks(edges, k, order, p1);
      MemberLinks(edges, k, order, p2);
      SwapWritesChain(edges, k, order, p1, p2);
    }
  }

  /**
   * `copyAELToSEL` on one edge: its SEL links become copies of its AEL
   * links, and the AEL successor is returned so the caller can walk on.
   */
  method CopyLinksToSel(edges: seq<TEdge>, e: int) returns (r: seq<TEdge>, next: int)
    requires 0 <= e < |edges| && LinksInRange(edges)
    ensures |r| == |edges| && LinksInRange(r) && OnlyLinksChanged(edges, r, SEL)
    ensures next == edges[e].NextInAEL
    ensures r[e].NextInSEL == edges[e].NextInAEL && r[e].PrevInSEL == edges[e].PrevInAEL
    ensures forall x :: 0 <= x < |edges| && x != e ==> r[x] == edges[x]
  {
    assert EdgeLinksIn(edges[e], |edges|);
    r := SetPrev(edges, SEL, e, edges[e].PrevInAEL);
    SetPrevKeeps(edges, SEL, e, edges[e].PrevInAEL);
    var s := r;
    r := SetNext(r, SEL, e, r[e].NextInAEL);
    SetNextKeeps(s, SEL, e, s[e].NextInAEL);
    OnlyLinksChangedTrans(edges, s, r, SEL);
    next := r[e].NextInAEL;
  }

  /** The arena after `swapSides(e1, e2)`: the two edges trade `Side`. */
  function SidesSwapped(edges: seq<TEdge>, e1: int, e2: int): (r: seq<TEdge>)
    requires 0 <= e1 < |edges| && 0 <= e2 < |edges|
    ensures |r| == |edges|
    ensures r[e1].Side == edges[e2].Side && r[e2].Side == edges[e1].Side
    ensures forall x :: 0 <= x < |edges| ==> r[x] == edges[x].(Side := r[x].Side)
    ensures forall x :: 0 <= x < |edges| && x != e1 && x != e2 ==> r[x] == edges[x]
  {
    var side := edges[e1].Side;
    var a := edges[e1 := edges[e1].(Side := edges[e2].Side)];
    a[e2 := a[e2].(Side := side)]
  }

  /** The arena after `swapPolyIndexes(e1, e2)`: the two edges trade `OutIdx`. */
  function PolyIndexesSwapped(edges: seq<TEdge>, e1: int, e2: int): (r: seq<TEdge>)
    requires 0 <= e1 < |edges| && 0 <= e2 < |edges|
    ensures |r| == |edges|
    ensures r[e1].OutIdx == edges[e2].OutIdx && r[e2].OutIdx == edges[e1].OutIdx
    ensures forall x :: 0 <= x < |edges| ==> r[x] == edges[x].(OutIdx := r[x].OutIdx)
    ensures forall x :: 0 <= x < |edges| && x != e1 && x != e2 ==> r[x] == edges[x]
  {
    var outIdx := edges[e1].OutIdx;
    var a := edges[e1 := edges[e1].(OutIdx := edges[e2].OutIdx)];
    a[e2 := a[e2].(OutIdx := outIdx)]
  }

  /** `swapSides` applied twice restores the arena. */
  lemma SidesSwappedTwice(edges: seq<TEdge>, e1: int, e2: int)
    requires 0 <= e1 < |edges| && 0 <= e2 < |edges|
    ensures SidesSwapped(SidesSwapped(edges, e1, e2), e1, e2) == edges
  {
    var r := SidesSwapped(SidesSwapped(edges, e1, e2), e1, e2);
    forall x | 0 <= x < |edges|
      ensures r[x] == edges[x]
    {
    }
  }

  /** `swapPolyIndexes` applied twice restores the arena. */
  lemma PolyIndexesSwappedTwice(edges: seq<TEdge>, e1: int, e2: int)
    requires 0 <= e1 < |edges| && 0 <= e2 < |edges|
    ensures PolyIndexesSwapped(PolyIndexesSwapped(edges, e1, e2), e1, e2) == edges
  {
    var r := PolyIndexesSwapped(PolyIndexesSwapped(edges, e1, e2), e1, e2);
    forall x | 0 <= x < |edges|
      ensures r[x] == edges[x]
    {
    }
  }

  /** `swapSides`. */
  method SwapSides(edges: seq<TEdge>, e1: int, e2: int) returns (r: seq<TEdge>)
    requires 0 <= e1 < |edges| && 0 <= e2 < |edges|
    ensures r == SidesSwapped(edges, e1, e2)
  {
    var side := edges[e1].Side;
    r := edges[e1 := edges[e1].(Side := edges[e2].Side)];
    r := r[e2 := r[e2].(Side := side)];
  }

  /** `swapPolyIndexes`. */
  method SwapPolyIndexes(edges: seq<TEdge>, e1: int, e2: int) returns (r: seq<TEdge>)
    requires 0 <= e1 < |edges| && 0 <= e2 < |edges|
    ensures r == PolyIndexesSwapped(edges, e1, e2)
  {
    var outIdx := edges[e1].OutIdx;
    r := edges[e1 := edges[e1].(OutIdx := edges[e2].OutIdx)];
    r := r[e2 := r[e2].(OutIdx := outIdx)];
  }

  // ---------------------------------------------------------------------
  // Linking an edge in
  // ---------------------------------------------------------------------

  /**
   * The writes that thread `e` between `prev` and `next` (either may be
   * null), in the order `InsertEdgeIntoAEL` makes them after its scan.
   */
  function LinkIn(edges: seq<TEdge>, k: ListKind, e: int, prev: int, next: int): (r: seq<TEdge>)
    requires 0 <= e < |edges| && ValidLink(prev, |edges|) && ValidLink(next, |edges|)
    ensures |r| == |edges|
  {
    var a := SetNext(edges, k, e, next);
    var b := if next != NULL then SetPrev(a, k, next, e) else a;
    var c := SetPrev(b, k, e, prev);
    if prev != NULL then SetNext(c, k, prev, e) else c
  }

  /**
   * The `k` links after `e` is threaded between `prev` and `next`: `e`
   * points at both, they point back at `e`, and every other edge keeps its
   * links.
   */
  predicate ListLinkedIn(edges: seq<TEdge>, r: seq<TEdge>, k: ListKind, e: int, prev: int, next: int)
  {
    |r| == |edges| && 0 <= e < |r| &&
    NextIn(r[e], k) == next && PrevIn(r[e], k) == prev &&
    forall x {:trigger r[x]} :: 0 <= x < |edges| && x != e ==>
      NextIn(r[x], k) == (if x == prev then e else NextIn(edges[x], k)) &&
      PrevIn(r[x], k) == (if x == next then e else PrevIn(edges[x], k))
  }

  lemma {:induction false} LinkInFrame(edges: seq<TEdge>, k: ListKind, e: int, prev: int, next: int)
    requires 0 <= e < |edges| && ValidLink(prev, |edges|) && ValidLink(next, |edges|) && LinksInRange(edges)
    ensures LinksInRange(LinkIn(edges, k, e, prev, next)) && OnlyLinksChanged(edges, LinkIn(edges, k, e, prev, next), k)
  {
    var a := SetNext(edges, k, e, next);
    SetNextKeeps(edges, k, e, next);
    var b := a;
    if next != NULL {
      b := SetPrev(a, k, next, e);
      SetPrevKeeps(a, k, next, e);
      OnlyLinksChangedTrans(edges, a, b, k);
    }
    var c := SetPrev(b, k, e, prev);
    SetPrevKeeps(b, k, e, prev);
    OnlyLinksChangedTrans(edges, b, c, k);
    var r := c;
    if prev != NULL {
      r := SetNext(c, k, prev, e);
      SetNextKeeps(c, k, prev, e);
      OnlyLinksChangedTrans(edges, c, r, k);
    }
    assert r == LinkIn(edges, k, e, prev, next);
  }

  lemma {:induction false} LinkInLinks(edges: seq<TEdge>, k: ListKind, e: int, prev: int, next: int)
    requires 0 <= e < |edges| && ValidLink(prev, |edges|) && ValidLink(next, |edges|)
    requires prev != e && next != e && (prev != NULL ==> prev != next)
    ensures ListLinkedIn(edges, LinkIn(edges, k, e, prev, next), k, e, prev, next)
  {
    var r := LinkIn(edges, k, e, prev, next);
    forall x | 0 <= x < |edges| && x != e
      ensures NextIn(r[x], k) == (if x == prev then e else NextIn(edges[x], k))
      ensures PrevIn(r[x], k) == (if x == next then e else PrevIn(edges[x], k))
    {
    }
  }

  /** Position `i` of `order` with `e` inserted at position `q`. */
  lemma InsertAt(order: seq<int>, e: int, q: int, i: int)
    requires 0 <= q <= |order| && 0 <= i <= |order|
    ensures (order[..q] + [e] + order[q..])[i] == if i < q then order[i] else if i == q then e else order[i - 1]
  {
  }

  lemma {:induction false} InsertedAt(edges: seq<TEdge>, r: seq<TEdge>, k: ListKind, order: seq<int>, e: int, q: int, i: int)
    requires Chain(edges, k, order) && 0 <= q <= |order| && e !in order
    requires ListLinkedIn(edges, r, k, e, At(order, q - 1), At(order, q))
    requires 0 <= i <= |order|
    ensures var s := order[..q] + [e] + order[q..];
      NextIn(r[s[i]], k) == At(s, i + 1) && PrevIn(r[s[i]], k) == At(s, i - 1)
  {
    var s := order[..q] + [e] + order[q..];
    InsertAt(order, e, q, i);
    if i + 1 <= |order| {
      InsertAt(order, e, q, i + 1);
    }
    if i > 0 {
      InsertAt(order, e, q, i - 1);
    }
    if i != q {
      var oi := if i < q then i else i - 1;
      var x := order[oi];
      assert x == s[i] && x != e;
      assert NextIn(edges[order[oi]], k) == At(order, oi + 1) && PrevIn(edges[order[oi]], k) == At(order, oi - 1);
      if q > 0 && oi != q - 1 {
        assert x != order[q - 1];
      }
      if q < |order| && oi != q {
        assert x != order[q];
      }
    }
  }

  /** Threading a non-member in at position `q` extends the chain by it there. */
  lemma {:induction false} InsertedChain(edges: seq<TEdge>, r: seq<TEdge>, k: ListKind, order: seq<int>, e: int, q: int)
    requires Chain(edges, k, order) && 0 <= q <= |order| && e !in order
    requires ListLinkedIn(edges, r, k, e, At(order, q - 1), At(order, q))
    ensures Chain(r, k, order[..q] + [e] + order[q..])
  {
    var s := order[..q] + [e] + order[q..];
    forall i, j | 0 <= i < j < |s|
      ensures s[i] != s[j]
    {
      InsertAt(order, e, q, i);
      InsertAt(order, e, q, j);
    }
    forall i | 0 <= i < |s|
      ensures 0 <= s[i] < |r|
      ensures NextIn(r[s[i]], k) == At(s, i + 1) && PrevIn(r[s[i]], k) == At(s, i - 1)
    {
      InsertAt(order, e, q, i);
      InsertedAt(edges, r, k, order, e, q, i);
    }
  }

  /** The neighbours of an insertion point are distinct from a non-member and from each other. */
  lemma InsertionPoint(edges: seq<TEdge>, k: ListKind, order: seq<int>, e: int, q: int)
    requires Chain(edges, k, order) && 0 <= q <= |order| && e !in order && 0 <= e < |edges|
    ensures ValidLink(At(order, q - 1), |edges|) && ValidLink(At(order, q), |edges|)
    ensures At(order, q - 1) != e && At(order, q) != e
    ensures At(order, q - 1) != NULL ==> At(order, q - 1) != At(order, q)
  {
  }

  // ---------------------------------------------------------------------
  // Frames between list operations
  // ---------------------------------------------------------------------

  /** The seven reference fields of an edge. */
  function LinksOf(e: TEdge): (int, int, int, int, int, int, int)
  {
    (e.Next, e.Prev, e.NextInLML, e.NextInAEL, e.PrevInAEL, e.NextInSEL, e.PrevInSEL)
  }

  /** No reference field differs: only coordinates, windings, sides or output indexes changed. */
  predicate AllLinksSame(a: seq<TEdge>, b: seq<TEdge>)
  {
    |a| == |b| && forall x :: 0 <= x < |a| ==> LinksOf(a[x]) == LinksOf(b[x])
  }

  /** The `k` links agree everywhere. */
  predicate ListLinksSame(a: seq<TEdge>, b: seq<TEdge>, k: ListKind)
  {
    |a| == |b| && forall x :: 0 <= x < |a| ==> NextIn(a[x], k) == NextIn(b[x], k) && PrevIn(a[x], k) == PrevIn(b[x], k)
  }

  /** Changing no reference keeps the references in range and both lists' links. */
  lemma AllLinksSameKeeps(a: seq<TEdge>, b: seq<TEdge>)
    requires AllLinksSame(a, b)
    ensures LinksInRange(a) ==> LinksInRange(b)
    ensures ListLinksSame(a, b, AEL) && ListLinksSame(a, b, SEL)
  {
    forall x | 0 <= x < |a|
      ensures EdgeLinksIn(a[x], |a|) ==> EdgeLinksIn(b[x], |b|)
      ensures NextIn(a[x], AEL) == NextIn(b[x], AEL) && PrevIn(a[x], AEL) == PrevIn(b[x], AEL)
      ensures NextIn(a[x], SEL) == NextIn(b[x], SEL) && PrevIn(a[x], SEL) == PrevIn(b[x], SEL)
    {
      assert LinksOf(a[x]) == LinksOf(b[x]);
    }
  }

  lemma AllLinksSameTrans(a: seq<TEdge>, b: seq<TEdge>, c: seq<TEdge>)
    requires AllLinksSame(a, b) && AllLinksSame(b, c)
    ensures AllLinksSame(a, c)
  {
  }

  /**
   * The fields of an edge the sweep only reads once the edges are built:
   * its ends, slope, poly type, ring neighbours and successor in its bound.
   */
  function ShapeOf(e: TEdge): (IntPoint, IntPoint, IntPoint, Slope, PolyType, int, int, int)
  {
    (e.Bot, e.Top, e.Delta, e.Dx, e.PolyTyp, e.Next, e.Prev, e.NextInLML)
  }

  /** No edge's shape differs between the two arenas. */
  predicate BoundsKept(a: seq<TEdge>, b: seq<TEdge>)
  {
    |a| == |b| && forall x :: 0 <= x < |a| ==> ShapeOf(a[x]) == ShapeOf(b[x])
  }

  /** Keeping every edge's shape twice keeps it. */
  lemma BoundsKeptTrans(a: seq<TEdge>, b: seq<TEdge>, c: seq<TEdge>)
    requires BoundsKept(a, b) && BoundsKept(b, c)
    ensures BoundsKept(a, c)
  {
  }

  /** Rewiring one list keeps every edge's shape. */
  lemma OnlyLinksKeepBounds(a: seq<TEdge>, b: seq<TEdge>, k: ListKind)
    requires OnlyLinksChanged(a, b, k)
    ensures BoundsKept(a, b)
  {
    forall x | 0 <= x < |a|
      ensures ShapeOf(a[x]) == ShapeOf(b[x])
    {
      assert SameBut(a[x], b[x], k);
    }
  }

  /** A chain depends on its own kind of link only. */
  lemma {:induction false} ChainKept(a: seq<TEdge>, b: seq<TEdge>, k: ListKind, order: seq<int>)
    requires ListLinksSame(a, b, k) && Chain(a, k, order)
    ensures Chain(b, k, order)
  {
    forall i | 0 <= i < |order|
      ensures NextIn(b[order[i]], k) == At(order, i + 1) && PrevIn(b[order[i]], k) == At(order, i - 1)
    {
      assert NextIn(a[order[i]], k) == At(order, i + 1) && PrevIn(a[order[i]], k) == At(order, i - 1);
    }
  }

  /** Rewiring one list leaves the links of the other alone. */
  lemma OtherListKept(a: seq<TEdge>, b: seq<TEdge>, k: ListKind, k2: ListKind)
    requires OnlyLinksChanged(a, b, k) && k != k2
    ensures ListLinksSame(a, b, k2)
  {
    forall x | 0 <= x < |a|
      ensures NextIn(a[x], k2) == NextIn(b[x], k2) && PrevIn(a[x], k2) == PrevIn(b[x], k2)
    {
      assert SameBut(a[x], b[x], k);
    }
  }

  lemma {:induction false} ReplacedAt(edges: seq<TEdge>, r: seq<TEdge>, k: ListKind, order: seq<int>, p: int, n: int, i: int)
    requires Chain(edges, k, order) && 0 <= p < |order| && n !in order
    requires ListLinkedIn(edges, r, k, n, At(order, p - 1), At(order, p + 1))
    requires 0 <= i < |order|
    ensures var s := order[p := n];
      NextIn(r[s[i]], k) == At(s, i + 1) && PrevIn(r[s[i]], k) == At(s, i - 1)
  {
    if i != p {
      var x := order[i];
      assert x != n;
      assert NextIn(edges[order[i]], k) == At(order, i + 1) && PrevIn(edges[order[i]], k) == At(order, i - 1);
      if p > 0 && i != p - 1 {
        assert x != order[p - 1];
      }
      if p + 1 < |order| && i != p + 1 {
        assert x != order[p + 1];
      }
    }
  }

  /**
   * Threading a non-member `n` between the neighbours of the member at
   * position `p` (whose own links are left as they were) puts `n` in its
   * place.
   */
  lemma {:induction false} ReplacedChain(edges: seq<TEdge>, r: seq<TEdge>, k: ListKind, order: seq<int>, p: int, n: int)
    requires Chain(edges, k, order) && 0 <= p < |order| && n !in order
    requires ListLinkedIn(edges, r, k, n, At(order, p - 1), At(order, p + 1))
    ensures Chain(r, k, order[p := n])
  {
    var s := order[p := n];
    forall i | 0 <= i < |s|
      ensures 0 <= s[i] < |r|
      ensures NextIn(r[s[i]], k) == At(s, i + 1) && PrevIn(r[s[i]], k) == At(s, i - 1)
    {
      ReplacedAt(edges, r, k, order, p, n, i);
    }
  }

  /** Cutting the forward link into the last member drops it from the chain. */
  lemma {:induction false} TruncatedChain(edges: seq<TEdge>, k: ListKind, order: seq<int>)
    requires Chain(edges, k, order) && |order| >= 2
    ensures Chain(SetNext(edges, k, order[|order| - 2], NULL), k, order[..|order| - 1])
  {
    var r := SetNext(edges, k, order[|order| - 2], NULL);
    var s := order[..|order| - 1];
    forall i | 0 <= i < |s|
      ensures NextIn(r[s[i]], k) == At(s, i + 1) && PrevIn(r[s[i]], k) == At(s, i - 1)
    {
      assert NextIn(edges[order[i]], k) == At(order, i + 1) && PrevIn(edges[order[i]], k) == At(order, i - 1);
      if i < |s| - 1 {
        assert s[i] != order[|order| - 2];
      }
    }
  }

  /**
   * The head that `SwapPositionsInAEL`/`SwapPositionsInSEL` pick after a
   * swap (the first of the two edges to have no predecessor, else the old
   * head) is the head of the swapped chain.
   */
  lemma HeadAfterSwap(r: seq<TEdge>, k: ListKind, order: seq<int>, p1: int, p2: int, head: int)
    requires 0 <= p1 < |order| && 0 <= p2 < |order| && p1 != p2 && head == order[0]
    requires 0 <= order[p1] < |r| && 0 <= order[p2] < |r|
    requires Chain(r, k, order[p1 := order[p2]][p2 := order[p1]])
    ensures var e1, e2 := order[p1], order[p2];
      At(order[p1 := e2][p2 := e1], 0) ==
        if PrevIn(r[e1], k) == NULL then e1 else if PrevIn(r[e2], k) == NULL then e2 else head
  {
    var s := order[p1 := order[p2]][p2 := order[p1]];
    assert PrevIn(r[s[p2]], k) == At(s, p2 - 1) && PrevIn(r[s[p1]], k) == At(s, p1 - 1);
    if p2 > 0 {
      assert 0 <= s[p2 - 1];
    }
    if p1 > 0 {
      assert 0 <= s[p1 - 1];
    }
  }

  /**
   * Threading a non-member into a well-formed list at position `q` keeps
   * every reference in range, changes only that list's links, gives the list
   * the edge at position `q` and leaves the other list's chain alone.
   */
  lemma {:induction false} ThreadedIn(edges: seq<TEdge>, k: ListKind, order: seq<int>, e: int, q: int, other: seq<int>)
    requires LinksInRange(edges) && Chain(edges, k, order) && 0 <= q <= |order| && 0 <= e < |edges| && e !in order
    ensures ValidLink(At(order, q - 1), |edges|) && ValidLink(At(order, q), |edges|)
    ensures var r := LinkIn(edges, k, e, At(order, q - 1), At(order, q));
      LinksInRange(r) && OnlyLinksChanged(edges, r, k) && Chain(r, k, order[..q] + [e] + order[q..]) &&
      (forall k2 :: k2 != k && Chain(edges, k2, other) ==> Chain(r, k2, other))
  {
    InsertionPoint(edges, k, order, e, q);
    var prev, next := At(order, q - 1), At(order, q);
    var r := LinkIn(edges, k, e, prev, next);
    LinkInFrame(edges, k, e, prev, next);
    LinkInLinks(edges, k, e, prev, next);
    InsertedChain(edges, r, k, order, e, q);
    forall k2 | k2 != k && Chain(edges, k2, other)
      ensures Chain(r, k2, other)
    {
      OtherListKept(edges, r, k, k2);
      ChainKept(edges, r, k2, other);
    }
  }
}
