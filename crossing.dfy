/**
 * What `IntersectEdges` decides when two active edges cross: the winding
 * count update of two closed edges, and which output operation the
 * crossing triggers, for a crossing involving an open edge and for one of
 * two closed edges.  The engine class carries the decisions out.
 */
module ClipperCrossing {
  import opened ClipperEdge

  /** `IsEvenOddFillType`: the edge's own set is filled even-odd. */
  predicate IsEvenOddFillType(e: TEdge, clipFill: PolyFillType, subjFill: PolyFillType)
  {
    OwnFill(e, clipFill, subjFill) == EvenOdd
  }

  /**
   * A non-zero-rule count after crossing an edge of the same set whose
   * winding delta is `d`: the count moves by `d`, except that it never
   * lands on zero: it flips sign instead.
   */
  function CrossCount(wc: int, d: int): (r: int)
    ensures d != 0 ==> r != 0
    ensures r == wc + d || r == -wc
  {
    if wc + d == 0 then -wc else wc + d
  }

  /** The even-odd toggle of a count of the other set. */
  function Toggle(wc2: int): (r: int)
    ensures r == 0 || r == 1
    ensures (wc2 == 0 || wc2 == 1) ==> r == 1 - wc2
  {
    if wc2 == 0 then 1 else 0
  }

  /**
   * The winding counts of two closed edges after `e1` passes from the left
   * of `e2` to its right: edges of the same set trade their counts under
   * even-odd fill and move them by each other's delta otherwise; edges of
   * different sets update their count of the other set, toggling it under
   * even-odd fill.  Nothing else of either edge changes.
   */
  function CrossedCounts(e1: TEdge, e2: TEdge, clipFill: PolyFillType, subjFill: PolyFillType): (r: (TEdge, TEdge))
    ensures r.0 == e1.(WindCnt := r.0.WindCnt, WindCnt2 := r.0.WindCnt2)
    ensures r.1 == e2.(WindCnt := r.1.WindCnt, WindCnt2 := r.1.WindCnt2)
    ensures e1.PolyTyp == e2.PolyTyp ==> r.0.WindCnt2 == e1.WindCnt2 && r.1.WindCnt2 == e2.WindCnt2
    ensures e1.PolyTyp != e2.PolyTyp ==> r.0.WindCnt == e1.WindCnt && r.1.WindCnt == e2.WindCnt
  {
    if e1.PolyTyp == e2.PolyTyp then
      if IsEvenOddFillType(e1, clipFill, subjFill) then
        (e1.(WindCnt := e2.WindCnt), e2.(WindCnt := e1.WindCnt))
      else
        (e1.(WindCnt := CrossCount(e1.WindCnt, e2.WindDelta)), e2.(WindCnt := CrossCount(e2.WindCnt, -e1.WindDelta)))
    else
      (e1.(WindCnt2 := if !IsEvenOddFillType(e2, clipFill, subjFill) then e1.WindCnt2 + e2.WindDelta else Toggle(e1.WindCnt2)),
       e2.(WindCnt2 := if !IsEvenOddFillType(e1, clipFill, subjFill) then e2.WindCnt2 - e1.WindDelta else Toggle(e2.WindCnt2)))
  }

  /** Counts that the engine keeps in its invariant form: non-zero own counts under non-zero rules, 0/1 counts under even-odd. */
  predicate CountsInForm(e: TEdge, clipFill: PolyFillType, subjFill: PolyFillType)
  {
    (IsEvenOddFillType(e, clipFill, subjFill) || e.WindCnt != 0) &&
    (OtherFill(e, clipFill, subjFill) != EvenOdd || e.WindCnt2 == 0 || e.WindCnt2 == 1)
  }

  /** Crossing keeps two closed edges' counts in that form. */
  lemma CrossingKeepsForm(e1: TEdge, e2: TEdge, clipFill: PolyFillType, subjFill: PolyFillType)
    requires e1.WindDelta != 0 && e2.WindDelta != 0
    requires CountsInForm(e1, clipFill, subjFill) && CountsInForm(e2, clipFill, subjFill)
    ensures CountsInForm(CrossedCounts(e1, e2, clipFill, subjFill).0, clipFill, subjFill)
    ensures CountsInForm(CrossedCounts(e1, e2, clipFill, subjFill).1, clipFill, subjFill)
  {
  }

  /**
   * Crossing back undoes a crossing: after `e1` passes `e2`, the edge now
   * on the left (the old `e2`) passing the other again restores both
   * edges, whenever their counts are in the engine's form.
   */
  lemma {:induction false} CrossingBackRestores(e1: TEdge, e2: TEdge, clipFill: PolyFillType, subjFill: PolyFillType)
    requires CountsInForm(e1, clipFill, subjFill) && CountsInForm(e2, clipFill, subjFill)
    ensures var (a, b) := CrossedCounts(e1, e2, clipFill, subjFill);
      CrossedCounts(b, a, clipFill, subjFill) == (e2, e1)
  {
    var (a, b) := CrossedCounts(e1, e2, clipFill, subjFill);
    if e1.PolyTyp == e2.PolyTyp && !IsEvenOddFillType(e1, clipFill, subjFill) {
      CrossCountBack(e2.WindCnt, -e1.WindDelta);
      CrossCountBack(e1.WindCnt, e2.WindDelta);
      assert CrossCount(b.WindCnt, e1.WindDelta) == e2.WindCnt;
      assert CrossCount(a.WindCnt, -e2.WindDelta) == e1.WindCnt;
    }
  }

  /** Moving by `d` and then by `-d` restores a non-zero count. */
  lemma CrossCountBack(wc: int, d: int)
    requires wc != 0
    ensures CrossCount(CrossCount(wc, d), -d) == wc
  {
  }

  /**
   * The count the fill rule tests (`e1Wc`/`e2Wc` and their `…2` forms):
   * the count itself for positive fill, its negation for negative fill and
   * its magnitude otherwise.
   */
  function FillCount(fill: PolyFillType, wc: int): (r: int)
    ensures r > 0 <==> InsideBy(fill, wc)
    ensures (fill == EvenOdd || fill == NonZero) ==> r >= 0 && (r == 0 <==> wc == 0)
  {
    match fill
    case Positive => wc
    case Negative => -wc
    case _ => if wc < 0 then -wc else wc
  }

  /** A closed edge's tested count is 1 exactly when the edge is on its own set's boundary, for the non-zero rules. */
  lemma FillCountOnBoundary(e: TEdge, clipFill: PolyFillType, subjFill: PolyFillType)
    requires !IsEvenOddFillType(e, clipFill, subjFill)
    ensures FillCount(OwnFill(e, clipFill, subjFill), e.WindCnt) == 1 <==> OnOwnBoundary(e, OwnFill(e, clipFill, subjFill))
  {
  }

  /** 0 or 1: the count of an edge that may still bound the result. */
  predicate Unit(w: int)
  {
    w == 0 || w == 1
  }

  // ---------------------------------------------------------------------
  // A crossing with an open edge
  // ---------------------------------------------------------------------

  /**
   * What a crossing involving an open edge does: close both open edges'
   * fragments at a shared maximum, put the point on the first or the
   * second edge (and then, when `clear` says so, take that edge off its
   * fragment), or nothing.
   */
  datatype OpenAction = OpenMax | PointOnFirst(clear: bool) | PointOnSecond(clear: bool) | OpenNothing

  /**
   * `IntersectEdges` when either edge is open (`c1`/`c2`: the edges have
   * fragments; `stops1`/`stops2`: the edges end at the crossing).
   */
  function OpenCrossing(e1: TEdge, e2: TEdge, c1: bool, c2: bool, stops1: bool, stops2: bool, clipType: ClipType): (a: OpenAction)
    requires e1.WindDelta == 0 || e2.WindDelta == 0
    ensures a.PointOnFirst? ==> e1.WindDelta == 0 && a.clear == c1
    ensures a.PointOnSecond? ==> e2.WindDelta == 0 && a.clear == c2
    ensures a == OpenMax <==> e1.WindDelta == 0 && e2.WindDelta == 0 && (stops1 || stops2) && c1 && c2
  {
    if e1.WindDelta == 0 && e2.WindDelta == 0 then
      if (stops1 || stops2) && c1 && c2 then OpenMax else OpenNothing
    else if e1.PolyTyp == e2.PolyTyp && e1.WindDelta != e2.WindDelta && clipType == Union then
      if e1.WindDelta == 0 then
        if c2 then PointOnFirst(c1) else OpenNothing
      else
        if c1 then PointOnSecond(c2) else OpenNothing
    else if e1.PolyTyp != e2.PolyTyp then
      if e1.WindDelta == 0 && (e2.WindCnt == 1 || e2.WindCnt == -1) && (clipType != Union || e2.WindCnt2 == 0) then
        PointOnFirst(c1)
      else if e2.WindDelta == 0 && (e1.WindCnt == 1 || e1.WindCnt == -1) && (clipType != Union || e1.WindCnt2 == 0) then
        PointOnSecond(c2)
      else OpenNothing
    else OpenNothing
  }

  /**
   * An open edge picks up the crossing point of a closed edge only when
   * that closed edge bounds the result where it is: under union, a closed
   * subject edge with a fragment, or a closed edge of the other set on its
   * own boundary and outside the open edge's set; under the other
   * operations, a closed edge of the other set with count magnitude 1.
   */
  lemma OpenPointNeedsBoundary(e1: TEdge, e2: TEdge, c1: bool, c2: bool, stops1: bool, stops2: bool, clipType: ClipType)
    requires e1.WindDelta == 0 && e2.WindDelta != 0
    ensures OpenCrossing(e1, e2, c1, c2, stops1, stops2, clipType).PointOnFirst? <==>
      if e1.PolyTyp == e2.PolyTyp then clipType == Union && c2
      else (e2.WindCnt == 1 || e2.WindCnt == -1) && (clipType != Union || e2.WindCnt2 == 0)
  {
  }

  // ---------------------------------------------------------------------
  // A crossing of two closed edges
  // ---------------------------------------------------------------------

  /**
   * What a crossing of two closed edges does once their counts are
   * updated: close the two fragments at a local maximum; add the point to
   * both fragments, or only the first's or the second's, and swap the
   * edges' sides and fragment indexes; start a fragment at a local minimum;
   * only swap the edges' sides; or nothing.
   */
  datatype ClosedAction = AtLocalMax | PointOnBoth | PointOnFirstOnly | PointOnSecondOnly | AtLocalMin | SidesOnly | ClosedNothing

  /** Whether a new fragment starts where two same-set edges of count 1 cross, by the other-set counts `w1`, `w2`. */
  predicate MinKept(clipType: ClipType, own: PolyType, w1: int, w2: int)
  {
    match clipType
    case Intersection => w1 > 0 && w2 > 0
    case Union => w1 <= 0 && w2 <= 0
    case Difference => (own == Clip && w1 > 0 && w2 > 0) || (own == Subject && w1 <= 0 && w2 <= 0)
    case Xor => true
  }

  /**
   * `IntersectEdges` for two closed edges `e1`, `e2` whose counts are
   * already updated (`c1`/`c2`: the edges had fragments; `stops1`/`stops2`:
   * the edges end at the crossing).
   */
  function ClosedCrossing(e1: TEdge, e2: TEdge, c1: bool, c2: bool, stops1: bool, stops2: bool,
                          clipType: ClipType, clipFill: PolyFillType, subjFill: PolyFillType): (a: ClosedAction)
  {
    var w1 := FillCount(OwnFill(e1, clipFill, subjFill), e1.WindCnt);
    var w2 := FillCount(OwnFill(e2, clipFill, subjFill), e2.WindCnt);
    if c1 && c2 then
      if stops1 || stops2 || !Unit(w1) || !Unit(w2) || (e1.PolyTyp != e2.PolyTyp && clipType != Xor) then AtLocalMax
      else PointOnBoth
    else if c1 then
      if Unit(w2) then PointOnFirstOnly else ClosedNothing
    else if c2 then
      if Unit(w1) then PointOnSecondOnly else ClosedNothing
    else if Unit(w1) && Unit(w2) && !stops1 && !stops2 then
      var v1 := FillCount(OtherFill(e1, clipFill, subjFill), e1.WindCnt2);
      var v2 := FillCount(OtherFill(e2, clipFill, subjFill), e2.WindCnt2);
      if e1.PolyTyp != e2.PolyTyp then AtLocalMin
      else if w1 == 1 && w2 == 1 then
        if MinKept(clipType, e1.PolyTyp, v1, v2) then AtLocalMin else ClosedNothing
      else SidesOnly
    else ClosedNothing
  }

  /**
   * The crossing's output follows the fragments the edges had: fragments
   * are closed only when both edges had one, extended for exactly the
   * edges that had one, and started only when neither had.
   */
  lemma ClosedCrossingByFragments(e1: TEdge, e2: TEdge, c1: bool, c2: bool, stops1: bool, stops2: bool,
                                  clipType: ClipType, clipFill: PolyFillType, subjFill: PolyFillType)
    ensures var a := ClosedCrossing(e1, e2, c1, c2, stops1, stops2, clipType, clipFill, subjFill);
      (a == AtLocalMax || a == PointOnBoth ==> c1 && c2) &&
      (a == PointOnFirstOnly ==> c1 && !c2) && (a == PointOnSecondOnly ==> !c1 && c2) &&
      (a == AtLocalMin || a == SidesOnly ==> !c1 && !c2 && !stops1 && !stops2) &&
      (c1 && c2 ==> a == AtLocalMax || a == PointOnBoth)
  {
  }

  /**
   * Two edges with fragments that both still bound the result and go on
   * past the crossing carry their fragments on (the point goes on both and
   * they trade sides), unless they belong to different sets under an
   * operation other than XOR, where the fragments are closed.
   */
  lemma ContinuingFragments(e1: TEdge, e2: TEdge, stops1: bool, stops2: bool,
                            clipType: ClipType, clipFill: PolyFillType, subjFill: PolyFillType)
    requires !stops1 && !stops2
    requires Unit(FillCount(OwnFill(e1, clipFill, subjFill), e1.WindCnt))
    requires Unit(FillCount(OwnFill(e2, clipFill, subjFill), e2.WindCnt))
    ensures ClosedCrossing(e1, e2, true, true, stops1, stops2, clipType, clipFill, subjFill) ==
      if e1.PolyTyp != e2.PolyTyp && clipType != Xor then AtLocalMax else PointOnBoth
  {
  }

  /**
   * Under XOR two same-set edges of count 1 with no fragments always start
   * one where they cross; under union and intersection the same crossing
   * starts one exactly when both edges are outside, respectively inside,
   * the other set, and under difference the clip set is decided as under
   * intersection and the subject set as under union.
   */
  lemma MinimumByClipType(e1: TEdge, e2: TEdge, clipFill: PolyFillType, subjFill: PolyFillType)
    requires e1.PolyTyp == e2.PolyTyp
    requires FillCount(OwnFill(e1, clipFill, subjFill), e1.WindCnt) == 1
    requires FillCount(OwnFill(e2, clipFill, subjFill), e2.WindCnt) == 1
    ensures ClosedCrossing(e1, e2, false, false, false, false, Xor, clipFill, subjFill) == AtLocalMin
    ensures var v1 := FillCount(OtherFill(e1, clipFill, subjFill), e1.WindCnt2);
      var v2 := FillCount(OtherFill(e2, clipFill, subjFill), e2.WindCnt2);
      (ClosedCrossing(e1, e2, false, false, false, false, Intersection, clipFill, subjFill) == AtLocalMin <==> v1 > 0 && v2 > 0) &&
      (ClosedCrossing(e1, e2, false, false, false, false, Union, clipFill, subjFill) == AtLocalMin <==> v1 <= 0 && v2 <= 0) &&
      (ClosedCrossing(e1, e2, false, false, false, false, Difference, clipFill, subjFill) ==
        ClosedCrossing(e1, e2, false, false, false, false, if e1.PolyTyp == Clip then Intersection else Union, clipFill, subjFill))
  {
  }

  // ---------------------------------------------------------------------
  // The whole decision
  // ---------------------------------------------------------------------

  /** What `IntersectEdges` does: the open-edge table, or the count update followed by the closed-edge table. */
  datatype Crossing = Open(open: OpenAction) | Closed(closed: ClosedAction)

  /** The edge ends at the crossing point: only for an unprotected call, an edge with no successor whose top is the point. */
  predicate Stops(e: TEdge, pt: IntPoint, isProtect: bool)
  {
    !isProtect && e.NextInLML == NULL && e.Top == pt
  }

  /**
   * At its top's Y an edge is intermediate (`getIntermediate`) exactly when
   * an unprotected crossing at its top would not stop it, and an
   * intermediate edge never stops at a crossing on that Y.
   */
  lemma IntermediateOrStops(e: TEdge, pt: IntPoint, isProtect: bool)
    ensures pt == e.Top ==> (GetIntermediate(e, pt.y) <==> !Stops(e, pt, false))
    ensures GetIntermediate(e, pt.y) ==> !Stops(e, pt, isProtect)
  {
  }

  /** The decision `IntersectEdges(edge1, edge2, pt, isProtect)` takes, from the two edges as they are before it. */
  function Decide(e1: TEdge, e2: TEdge, pt: IntPoint, isProtect: bool,
                  clipType: ClipType, clipFill: PolyFillType, subjFill: PolyFillType): (d: Crossing)
    ensures d.Open? <==> e1.WindDelta == 0 || e2.WindDelta == 0
    ensures d == Closed(AtLocalMax) ==> e1.OutIdx >= 0 && e2.OutIdx >= 0
    ensures d == Closed(AtLocalMin) ==> e1.OutIdx < 0 && e2.OutIdx < 0
  {
    var stops1, stops2 := Stops(e1, pt, isProtect), Stops(e2, pt, isProtect);
    var c1, c2 := e1.OutIdx >= 0, e2.OutIdx >= 0;
    if e1.WindDelta == 0 || e2.WindDelta == 0 then
      Open(OpenCrossing(e1, e2, c1, c2, stops1, stops2, clipType))
    else
      var (a, b) := CrossedCounts(e1, e2, clipFill, subjFill);
      Closed(ClosedCrossing(a, b, c1, c2, stops1, stops2, clipType, clipFill, subjFill))
  }
}
