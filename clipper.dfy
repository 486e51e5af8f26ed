/**
 * The `Clipper` class: the Vatti sweep's mutable state and the operations
 * on it.
 *
 * The engine object becomes a Dafny `class` whose fields the methods
 * reassign.  Edges live in the arena `edges` (as in `ClipperEdge`), output
 * points in `outPts` and output records in `polyOuts` (as in
 * `ClipperOutput`); references are indices, `NULL` is null.  Four ghost
 * fields say what the links mean: `ael` and `sel` list the Active and
 * Sorted Edge Lists in order, `rings` lists each record's ring of points
 * and `owner` names the record each point belongs to.
 *
 * Collaborators whose code is not part of this model (floating-point
 * geometry, `OutRec.setHoleState`, the hole-state choice of
 * `AppendPolygon`, `OutRec.export`) are passed in once as functions.
 */
module ClipperEngine {
  import opened Wrappers
  import opened ClipperEdge
  import opened ClipperOutput
  import opened ClipperIntersect
  import opened ClipperWinding
  import opened ClipperCrossing
  import opened ClipperHorizontal

  /** `Join`: two output points to be joined later, and the offset point that guides the join. */
  datatype Join = Join(OutPt1: int, OutPt2: int, OffPt: IntPoint)

  /** How one turn of the walk of a run of horizontals ends: at the maxima pair, at the run's last horizontal, or on the next one. */
  datatype HorzStep = RunClosed | RunStopped | RunAdvanced(next: int)

  /**
   * The collaborators the engine calls but that are not modelled:
   * `geo` gives `topX`; `intersectPoint` gives `TEdge.intersectPoint` (its
   * success flag and the point it computes);
   * `holeState` gives what `OutRec.setHoleState` writes (`IsHole`,
   * `FirstLeft`); `holeFromSecond` says whether `AppendPolygon` takes the
   * hole state of the absorbed record (the `param1RightOfParam2` /
   * `GetLowermostRec` choice); `exportRec` gives `OutRec.export`.
   */
  datatype Collaborators = Collaborators(
    geo: Geometry,
    intersectPoint: (TEdge, TEdge) -> (bool, IntPoint),
    holeState: (seq<TEdge>, int, seq<OutRec>) -> (bool, int),
    holeFromSecond: (seq<OutPt>, OutRec, OutRec) -> bool,
    exportRec: (seq<OutPt>, OutRec) -> Option<seq<IntPoint>>)

  /** The engine's edges and output at one moment, as values (used to name intermediate states in contracts). */
  datatype Snapshot = Snapshot(edges: seq<TEdge>, pts: seq<OutPt>, recs: seq<OutRec>, rings: seq<seq<int>>, owner: seq<int>)

  // ---------------------------------------------------------------------
  // Pure helpers
  // ---------------------------------------------------------------------

  function Min(a: int, b: int): int { if a < b then a else b }

  function Max(a: int, b: int): int { if a < b then b else a }

  /**
   * `GetOverlap`: the overlap `[Left, Right]` of the intervals spanned by
   * `a1, a2` and by `b1, b2`, each pair given in either order, and whether
   * it is a proper one.
   */
  function GetOverlap(a1: int, a2: int, b1: int, b2: int): (r: (bool, int, int))
    ensures r.1 == Max(Min(a1, a2), Min(b1, b2)) && r.2 == Min(Max(a1, a2), Max(b1, b2))
    ensures r.0 <==> r.1 < r.2
  {
    var (left, right) :=
      if a1 < a2 then
        if b1 < b2 then (Max(a1, b1), Min(a2, b2)) else (Max(a1, b2), Min(a2, b1))
      else
        if b1 < b2 then (Max(a2, b1), Min(a1, b2)) else (Max(a2, b2), Min(a1, b1));
    (left < right, left, right)
  }

  /**
   * `GetHorzDirection`: a horizontal edge runs left to right exactly when its
   * bottom lies left of its top; `Left`/`Right` are its two ends' X in order.
   */
  function GetHorzDirection(horzEdge: TEdge): (r: (Direction, int, int))
    ensures r.0 == LeftToRight <==> horzEdge.Bot.x < horzEdge.Top.x
    ensures r.1 == Min(horzEdge.Bot.x, horzEdge.Top.x) && r.2 == Max(horzEdge.Bot.x, horzEdge.Top.x)
  {
    if horzEdge.Bot.x < horzEdge.Top.x then (LeftToRight, horzEdge.Bot.x, horzEdge.Top.x)
    else (RightToLeft, horzEdge.Top.x, horzEdge.Bot.x)
  }

  // ---------------------------------------------------------------------
  // The engine
  // ---------------------------------------------------------------------

  /** Both edge lists are well-formed lists headed by their head fields. */
  predicate ListsOk(edges: seq<TEdge>, activeEdges: int, ael: seq<int>, sortedEdges: int, sel: seq<int>)
  {
    LinksInRange(edges) && Linked(edges, AEL, activeEdges, ael) && Linked(edges, SEL, sortedEdges, sel)
  }

  /** The lists of kind `k` and of the other kind, as `ListsOk` orders them. */
  predicate ListsOkAs(edges: seq<TEdge>, k: ListKind, head: int, order: seq<int>, otherHead: int, other: seq<int>)
  {
    match k
    case AEL => ListsOk(edges, head, order, otherHead, other)
    case SEL => ListsOk(edges, otherHead, other, head, order)
  }

  /**
   * `SwapPositionsInAEL` / `SwapPositionsInSEL` on an arena and a head: the
   * edges' swap, then the head moved to whichever of the two edges now has
   * no predecessor.  When both edges are members of the list it is their
   * exchange; when either counts as not on the list nothing changes.
   */
  method SwapInList(edges: seq<TEdge>, k: ListKind, edge1: int, edge2: int, head: int, ghost order: seq<int>, otherHead: int, ghost other: seq<int>)
    returns (r: seq<TEdge>, newHead: int, ghost newOrder: seq<int>)
    requires ListsOkAs(edges, k, head, order, otherHead, other)
    requires 0 <= edge1 < |edges| && 0 <= edge2 < |edges|
    requires (edge1 in order && edge2 in order && edge1 != edge2) || Refuses(edges[edge1], k) || Refuses(edges[edge2], k)
    ensures ListsOkAs(r, k, newHead, newOrder, otherHead, other) && OnlyLinksChanged(edges, r, k)
    ensures Refuses(edges[edge1], k) || Refuses(edges[edge2], k) ==> r == edges && newHead == head && newOrder == order
    ensures !(Refuses(edges[edge1], k) || Refuses(edges[edge2], k)) ==>
      edge1 in order && edge2 in order &&
      newOrder == order[IndexOf(order, edge1) := edge2][IndexOf(order, edge2) := edge1]
  {
    ghost var k2 := if k == AEL then SEL else AEL;
    ghost var p1 := if edge1 in order then IndexOf(order, edge1) else 0;
    ghost var p2 := if edge2 in order then IndexOf(order, edge2) else 0;
    var ok;
    r, ok := SwapPositions(edges, k, edge1, edge2, order, p1, p2);
    OtherListKept(edges, r, k, k2);
    ChainKept(edges, r, k2, other);
    if !ok {
      return r, head, order;
    }
    newOrder := order[p1 := edge2][p2 := edge1];
    newHead := head;
    if PrevIn(r[edge1], k) == NULL {
      newHead := edge1;
    } else if PrevIn(r[edge2], k) == NULL {
      newHead := edge2;
    }
    HeadAfterSwap(r, k, order, p1, p2, head);
  }

  class Clipper {
    const env: Collaborators
    var clipType: ClipType
    var clipFillType: PolyFillType
    var subjFillType: PolyFillType
    /** The scanbeam's pending Y values (a sorted linked list in the source). */
    var scanbeam: set<int>
    var edges: seq<TEdge>
    var activeEdges: int
    var sortedEdges: int
    var intersectList: seq<IntersectNode>
    var executeLocked: bool
    var hasOpenPaths: bool
    var polyOuts: seq<OutRec>
    var outPts: seq<OutPt>
    var joins: seq<Join>
    var ghostJoins: seq<Join>
    ghost var ael: seq<int>
    ghost var sel: seq<int>
    ghost var rings: seq<seq<int>>
    ghost var owner: seq<int>

    /** Both edge lists are well-formed lists headed by their head fields, and every record's ring is well formed. */
    ghost predicate Valid()
      reads this`edges, this`activeEdges, this`ael, this`sortedEdges, this`sel, this`outPts, this`polyOuts, this`rings, this`owner
    {
      ListsOk(edges, activeEdges, ael, sortedEdges, sel) && OutputOk(outPts, polyOuts, rings, owner)
    }

    /**
     * A new engine over the edges the base class built from the input paths:
     * the field initialisers of the class, with both lists and the output
     * empty.
     */
    constructor(env: Collaborators, edges: seq<TEdge>, hasOpenPaths: bool)
      requires LinksInRange(edges)
      ensures Valid() && this.env == env && this.edges == edges && this.hasOpenPaths == hasOpenPaths
      ensures clipType == Intersection && clipFillType == EvenOdd && subjFillType == EvenOdd
      ensures activeEdges == NULL && sortedEdges == NULL && ael == [] && sel == []
      ensures intersectList == [] && !executeLocked && polyOuts == [] && joins == [] && ghostJoins == []
    {
      this.env := env;
      this.edges := edges;
      this.hasOpenPaths := hasOpenPaths;
      clipType, clipFillType, subjFillType := Intersection, EvenOdd, EvenOdd;
      scanbeam := {};
      activeEdges, sortedEdges := NULL, NULL;
      intersectList := [];
      executeLocked := false;
      polyOuts, outPts, joins, ghostJoins := [], [], [], [];
      ael, sel, rings, owner := [], [], [], [];
    }

    // -------------------------------------------------------------------
    // The two edge lists
    // -------------------------------------------------------------------

    /**
     * `AddEdgeToSEL`: push the edge onto the front of the SEL (its order
     * does not matter to the horizontal processing that uses it).
     */
    method AddEdgeToSEL(edge: int)
      requires Valid() && 0 <= edge < |edges| && edge !in sel
      modifies this`edges, this`sortedEdges, this`sel
      ensures Valid() && sel == [edge] + old(sel) && sortedEdges == edge
      ensures OnlyLinksChanged(old(edges), edges, SEL)
    {
      edges := PushFront(edges, edge, activeEdges, ael, sortedEdges, sel);
      sortedEdges := edge;
      sel := [edge] + sel;
    }

    /**
     * `InsertEdgeIntoAEL`: thread the edge into the AEL.  On an empty list it
     * becomes the only member; with no start edge it goes to the front if it
     * `InsertsBefore` the head; otherwise it goes after the start edge (the
     * head when none is given), past every following edge it does not
     * insert before.  `q` is the position it lands at.
     */
    method InsertEdgeIntoAEL(edge: int, startEdge: int) returns (ghost q: int)
      requires Valid() && 0 <= edge < |edges| && edge !in ael
      requires startEdge == NULL || startEdge in ael
      modifies this`edges, this`activeEdges, this`ael
      ensures Valid() && 0 <= q <= |old(ael)| && ael == old(ael)[..q] + [edge] + old(ael)[q..]
      ensures OnlyLinksChanged(old(edges), edges, AEL)
      ensures InsertionSpot(old(edges), edge, startEdge, old(ael), env.geo, q)
    {
      var r, head;
      r, head, q := InsertInList(edges, edge, startEdge, activeEdges, env.geo, ael, sortedEdges, sel);
      edges, activeEdges := r, head;
      ael := ael[..q] + [edge] + ael[q..];
    }

    /**
     * `SwapPositionsInAEL`: exchange two active edges and keep the head on the
     * edge with no predecessor; nothing happens when either edge counts as
     * not on the AEL.
     */
    method SwapPositionsInAEL(edge1: int, edge2: int)
      requires Valid() && 0 <= edge1 < |edges| && 0 <= edge2 < |edges|
      requires (edge1 in ael && edge2 in ael && edge1 != edge2) || Refuses(edges[edge1], AEL) || Refuses(edges[edge2], AEL)
      modifies this`edges, this`activeEdges, this`ael
      ensures BoundsKept(old(edges), edges)
      ensures Valid() && OnlyLinksChanged(old(edges), edges, AEL)
      ensures Refuses(old(edges)[edge1], AEL) || Refuses(old(edges)[edge2], AEL) ==>
        edges == old(edges) && activeEdges == old(activeEdges) && ael == old(ael)
      ensures !(Refuses(old(edges)[edge1], AEL) || Refuses(old(edges)[edge2], AEL)) ==>
        edge1 in old(ael) && edge2 in old(ael) &&
        ael == old(ael)[IndexOf(old(ael), edge1) := edge2][IndexOf(old(ael), edge2) := edge1]
    {
      var r, head;
      ghost var order;
      r, head, order := SwapInList(edges, AEL, edge1, edge2, activeEdges, ael, sortedEdges, sel);
      OnlyLinksKeepBounds(edges, r, AEL);
      edges, activeEdges, ael := r, head, order;
    }

    /** `SwapPositionsInSEL`: the same on the SEL. */
    method SwapPositionsInSEL(edge1: int, edge2: int)
      requires Valid() && 0 <= edge1 < |edges| && 0 <= edge2 < |edges|
      requires (edge1 in sel && edge2 in sel && edge1 != edge2) || Refuses(edges[edge1], SEL) || Refuses(edges[edge2], SEL)
      modifies this`edges, this`sortedEdges, this`sel
      ensures Valid() && OnlyLinksChanged(old(edges), edges, SEL)
      ensures Refuses(old(edges)[edge1], SEL) || Refuses(old(edges)[edge2], SEL) ==>
        edges == old(edges) && sortedEdges == old(sortedEdges) && sel == old(sel)
      ensures !(Refuses(old(edges)[edge1], SEL) || Refuses(old(edges)[edge2], SEL)) ==>
        edge1 in old(sel) && edge2 in old(sel) &&
        sel == old(sel)[IndexOf(old(sel), edge1) := edge2][IndexOf(old(sel), edge2) := edge1]
    {
      var r, head;
      ghost var order;
      r, head, order := SwapInList(edges, SEL, edge1, edge2, sortedEdges, sel, activeEdges, ael);
      edges, sortedEdges, sel := r, head, order;
    }

    /**
     * `CopyAELToSEL`: make the SEL a copy of the AEL, edge by edge, so both
     * lists hold the active edges in the same order.
     */
    method CopyAELToSEL()
      requires Valid()
      modifies this`edges, this`sortedEdges, this`sel
      ensures Valid() && sel == ael && sortedEdges == activeEdges
      ensures OnlyLinksChanged(old(edges), edges, SEL)
      ensures forall x :: 0 <= x < |edges| && x !in ael ==> edges[x] == old(edges)[x]
    {
      edges := CopyAelLinks(edges, activeEdges, ael);
      sortedEdges := activeEdges;
      sel := ael;
    }

    /**
     * `UpdateEdgeIntoAEL`: replace the active edge `e` by the next edge of
     * its bound, at the same place in the AEL.  The successor inherits
     * `OutIdx`, `Side` and the winding fields, starts at its bottom, and
     * adds its top to the scanbeam unless it is horizontal.  `e` keeps its
     * own (now stale) links.  Without a successor the call fails.
     */
    method UpdateEdgeIntoAEL(e: int) returns (res: Result<int, string>)
      requires Valid() && 0 <= e < |edges| && e in ael
      requires edges[e].NextInLML == NULL || edges[e].NextInLML !in ael
      modifies this`edges, this`activeEdges, this`ael, this`scanbeam
      ensures BoundsKept(old(edges), edges)
      ensures Valid()
      ensures old(edges)[e].NextInLML == NULL ==>
        res.Failure? && edges == old(edges) && ael == old(ael) && activeEdges == old(activeEdges) && scanbeam == old(scanbeam)
      ensures old(edges)[e].NextInLML != NULL ==>
        res == Success(old(edges)[e].NextInLML) &&
        ael == old(ael)[IndexOf(old(ael), e) := old(edges)[e].NextInLML] &&
        Replaced(old(edges), e, edges) &&
        scanbeam == if IsHorizontal(old(edges)[old(edges)[e].NextInLML]) then old(scanbeam)
                    else old(scanbeam) + {old(edges)[old(edges)[e].NextInLML].Top.y}
    {
      var n := edges[e].NextInLML;
      if n == NULL {
        return Failure("UpdateEdgeIntoAEL: invalid call");
      }
      var r, head := ReplaceInAel(edges, e, activeEdges, ael, sortedEdges, sel);
      if !IsHorizontal(r[n]) {
        scanbeam := scanbeam + {r[n].Top.y};
      }
      ael := ael[IndexOf(ael, e) := n];
      ReplacedKeepsBounds(edges, e, r);
      edges, activeEdges := r, head;
      return Success(n);
    }

    // -------------------------------------------------------------------
    // Output fragments
    // -------------------------------------------------------------------

    /**
     * `AddOutPt`: add `pt` to the edge's output fragment and return its node.
     * An edge without a fragment starts one; otherwise the point goes at the
     * front of the fragment for a left-side edge and at its back for a
     * right-side one, unless it repeats the point already there.  A fragment
     * index past the records, or a record without points, fails (the source
     * dereferences null there).
     */
    method AddOutPt(e: int, pt: IntPoint) returns (res: Result<int, string>)
      requires Valid() && 0 <= e < |edges|
      modifies this`edges, this`outPts, this`polyOuts, this`rings, this`owner
      ensures BoundsKept(old(edges), edges)
      ensures Valid() && |edges| == |old(edges)|
      ensures OutPtAdded(env, old(edges), old(outPts), old(polyOuts), old(rings), old(owner), e, pt,
        edges, outPts, polyOuts, rings, owner, res)
    {
      ghost var rings2, owner2;
      var edges2, pts2, recs2;
      res, edges2, pts2, recs2, rings2, owner2 := AddPoint(env, edges, e, pt, outPts, polyOuts, rings, owner, activeEdges, ael, sortedEdges, sel);
      OutPtAddedKeepsBounds(env, edges, outPts, polyOuts, rings, owner, e, pt, edges2, pts2, recs2, rings2, owner2, res);
      edges, outPts, polyOuts, rings, owner := edges2, pts2, recs2, rings2, owner2;
    }

    /**
     * `DupOutPt`: a copy of node `op` (same point, same record index)
     * threaded into `op`'s ring right after it, or right before it.  `op`
     * lies in the ring of record `s`; the record's first node stays first.
     */
    method DupOutPt(op: int, insertAfter: bool, ghost s: int) returns (n: int)
      requires Valid() && 0 <= s < |polyOuts| && op in rings[s]
      modifies this`outPts, this`rings, this`owner
      ensures Valid()
      ensures Duplicated(old(outPts), old(rings), old(owner), op, insertAfter, s, outPts, n, rings, owner)
    {
      ghost var rings2, owner2;
      var pts2;
      pts2, n, rings2, owner2 := DupPoint(outPts, polyOuts, rings, owner, op, insertAfter, s);
      outPts, rings, owner := pts2, rings2, owner2;
    }

    /**
     * `GetOutRec`: follow the records' `Idx` redirects from slot `idx` to
     * the record that sits at its own slot.
     */
    method GetOutRec(idx: int) returns (s: int)
      requires Valid() && 0 <= idx < |polyOuts|
      ensures s == Representative(polyOuts, idx)
    {
      s := idx;
      while polyOuts[s].Idx != s
        invariant 0 <= s <= idx && Representative(polyOuts, s) == Representative(polyOuts, idx)
        decreases s
      {
        s := polyOuts[s].Idx;
      }
    }

    /**
     * `UpdateOutPtIdxs`: walk record `s`'s ring backwards from `Pts` and
     * set every node's `Idx` to the record's `Idx`.  A record without
     * points fails (the source dereferences null).
     */
    method UpdateOutPtIdxs(s: int) returns (res: Result<(), string>)
      requires Valid() && 0 <= s < |polyOuts|
      modifies this`outPts
      ensures Valid()
      ensures polyOuts[s].Pts == NULL ==> res.Failure? && outPts == old(outPts)
      ensures polyOuts[s].Pts != NULL ==> res.Success? && outPts == Relabelled(old(outPts), rings[s], polyOuts[s].Idx)
    {
      if polyOuts[s].Pts == NULL {
        return Failure("UpdateOutPtIdxs: the record has no points");
      }
      assert RecRing(outPts, polyOuts[s], rings[s]);
      var r := Relabel(outPts, polyOuts[s].Pts, rings[s], polyOuts[s].Idx);
      LinksSameKept(outPts, r, polyOuts, rings, owner);
      outPts := r;
      return Success(());
    }

    /**
     * `AppendPolygon`: join the fragment of `e2` onto the fragment of `e1`
     * (see `Appended`).  Its one caller passes the lower fragment index
     * first.  A fragment index outside the records, or a record without
     * points, fails with nothing changed (the source dereferences null).
     */
    method AppendPolygon(e1: int, e2: int) returns (res: Result<(), string>)
      requires Valid() && 0 <= e1 < |edges| && 0 <= e2 < |edges| && edges[e1].OutIdx < edges[e2].OutIdx
      modifies this`edges, this`outPts, this`polyOuts, this`rings, this`owner
      ensures Valid()
      ensures Appended(env, old(edges), old(outPts), old(polyOuts), old(rings), old(owner), ael, e1, e2,
        edges, outPts, polyOuts, rings, owner, res)
    {
      ghost var rings2, owner2;
      var edges2, pts2, recs2;
      res, edges2, pts2, recs2, rings2, owner2 := Append(env, edges, e1, e2, outPts, polyOuts, rings, owner, activeEdges, ael, sortedEdges, sel);
      edges, outPts, polyOuts, rings, owner := edges2, pts2, recs2, rings2, owner2;
    }

    /**
     * `AddLocalMaxPoly`: at a local maximum the two edges' fragments meet.
     * The point goes onto `e1`'s fragment, and onto `e2`'s too when `e2`
     * is open; then, if both edges are on the same fragment, it is closed
     * and both edges leave it; otherwise the higher-indexed fragment is
     * appended onto the lower (see `LocalMaxClosed`).  `m1` and `m2` are
     * the states after each point, `r1` and `r2` what `AddOutPt` returned.
     */
    method AddLocalMaxPoly(e1: int, e2: int, pt: IntPoint)
      returns (res: Result<(), string>, ghost m1: Snapshot, ghost r1: Result<int, string>, ghost m2: Snapshot, ghost r2: Result<int, string>)
      requires Valid() && 0 <= e1 < |edges| && 0 <= e2 < |edges|
      modifies this`edges, this`outPts, this`polyOuts, this`rings, this`owner
      ensures BoundsKept(old(edges), edges)
      ensures Valid() && |edges| == |old(edges)|
      ensures LocalMaxClosed(env, ael, e1, e2, pt, Snapshot(old(edges), old(outPts), old(polyOuts), old(rings), old(owner)),
        m1, r1, m2, r2, Snapshot(edges, outPts, polyOuts, rings, owner), res)
    {
      ghost var rings2, owner2;
      var edges2, pts2, recs2;
      res, edges2, pts2, recs2, rings2, owner2, m1, r1, m2, r2 := LocalMax(env, edges, e1, e2, pt, outPts, polyOuts, rings, owner, activeEdges, ael, sortedEdges, sel);
      LocalMaxKeepsBounds(env, ael, e1, e2, pt, Snapshot(edges, outPts, polyOuts, rings, owner), m1, r1, m2, r2,
        Snapshot(edges2, pts2, recs2, rings2, owner2), res);
      edges, outPts, polyOuts, rings, owner := edges2, pts2, recs2, rings2, owner2;
    }

    /**
     * `AddLocalMinPoly`: at a local minimum the pair of edges starts (or
     * extends) one fragment at `pt`, led by the edge `MinLead` picks; both
     * edges then share it, the lead on the left.  When the edge just before
     * the lead in the AEL runs through the same point along the same slope
     * and both are closed, `pt` also goes onto that edge's fragment and the
     * two nodes are recorded as a join.  The result is the lead's node (see
     * `LocalMinAdded`).
     */
    method AddLocalMinPoly(e1: int, e2: int, pt: IntPoint)
      returns (res: Result<int, string>, ghost m0: Snapshot, ghost r1: Result<int, string>, ghost m: Snapshot, ghost r2: Result<int, string>)
      requires Valid() && 0 <= e1 < |edges| && 0 <= e2 < |edges|
      modifies this`edges, this`outPts, this`polyOuts, this`rings, this`owner, this`joins
      ensures BoundsKept(old(edges), edges)
      ensures Valid() && |edges| == |old(edges)|
      ensures LocalMinAdded(env, e1, e2, pt, Snapshot(old(edges), old(outPts), old(polyOuts), old(rings), old(owner)),
        m0, r1, m, r2, Snapshot(edges, outPts, polyOuts, rings, owner), old(joins), joins, res)
    {
      ghost var rings2, owner2;
      var edges2, pts2, recs2, joins2;
      res, edges2, pts2, recs2, rings2, owner2, joins2, m0, r1, m, r2 := LocalMin(env, edges, e1, e2, pt, outPts, polyOuts, rings, owner, joins, activeEdges, ael, sortedEdges, sel);
      LocalMinKeepsBounds(env, e1, e2, pt, Snapshot(edges, outPts, polyOuts, rings, owner), m0, r1, m, r2,
        Snapshot(edges2, pts2, recs2, rings2, owner2), joins, joins2, res);
      edges, outPts, polyOuts, rings, owner, joins := edges2, pts2, recs2, rings2, owner2, joins2;
    }

    /**
     * `FixupIntersectionOrder`: sort the intersection list bottom-most first,
     * copy the AEL into the SEL, then repair the order so that each node
     * joins two edges adjacent in the SEL when its turn comes, swapping them
     * there.  The result says whether the repair went through; the list and
     * the SEL are what `Fixup` gives for the sorted list (see `FixupAdjacent`
     * for what that guarantees).
     */
    method FixupIntersectionOrder() returns (ok: bool)
      requires Valid() && AllIn(intersectList, ael)
      modifies this`edges, this`sortedEdges, this`sel, this`intersectList
      ensures Valid() && FixedUp(ael, old(intersectList), intersectList, ok, sel)
    {
      var r, head, l;
      ghost var order;
      ok, r, head, order, l := SortAndFix(edges, activeEdges, ael, sortedEdges, sel, intersectList);
      edges, sortedEdges, sel, intersectList := r, head, order, l;
    }

    /**
     * `BuildIntersectList(botY, topY)`: with no active edges nothing
     * changes.  Otherwise every active edge's current X moves to its X at
     * `topY`, a bubble sort of a copy of the AEL in the SEL records a node
     * for every pair of neighbours it swaps, and on success the SEL is left
     * empty and the new nodes are as `Bubbled` says.  A failed intersection
     * of two edges more than one unit apart is an error.
     */
    method BuildIntersectList(botY: int, topY: int) returns (res: Result<(), string>)
      requires Valid()
      modifies this`edges, this`sortedEdges, this`sel, this`intersectList
      ensures Valid()
      ensures activeEdges == NULL ==> (res.Success? && edges == old(edges) && sortedEdges == old(sortedEdges) &&
        sel == old(sel) && intersectList == old(intersectList))
      ensures activeEdges != NULL && res.Success? ==>
        (sortedEdges == NULL && sel == [] && Bubbled(env.geo, topY, ael, old(edges), edges, old(intersectList), intersectList))
    {
      if activeEdges == NULL {
        return Success(());
      }
      var r, head, l;
      ghost var order;
      res, r, head, order, l := BuildList(env, botY, topY, edges, activeEdges, ael, sortedEdges, sel, intersectList);
      edges, sortedEdges, sel, intersectList := r, head, order, l;
    }

    /** `AddJoin`: record that output points `op1` and `op2` are to be joined, guided by `offPt`. */
    method AddJoin(op1: int, op2: int, offPt: IntPoint)
      modifies this`joins
      ensures joins == old(joins) + [Join(op1, op2, offPt)]
    {
      joins := joins + [Join(op1, op2, offPt)];
    }

    // -------------------------------------------------------------------
    // Winding counts
    // -------------------------------------------------------------------

    /**
     * `SetWindingCount(edge)` for an edge of the AEL: only the edge's
     * `WindCnt` and `WindCnt2` change, to `WindingCounts` at its position
     * `p`; the lists and the output are kept.
     */
    method SetWindingCount(edge: int) returns (ghost p: int)
      requires Valid() && edge in ael
      modifies this`edges
      ensures Valid() && 0 <= p < |ael| && ael[p] == edge && InArena(old(edges), ael)
      ensures edges == old(edges)[edge := old(edges)[edge].(
        WindCnt := WindingCounts(old(edges), ael, p, clipType, clipFillType, subjFillType).0,
        WindCnt2 := WindingCounts(old(edges), ael, p, clipType, clipFillType, subjFillType).1)]
    {
      var r;
      r, p := SetWinding(edges, edge, activeEdges, ael, clipType, clipFillType, subjFillType);
      ListsKept(edges, r, activeEdges, ael, sortedEdges, sel);
      edges := r;
    }

    // -------------------------------------------------------------------
    // Crossings
    // -------------------------------------------------------------------

    /**
     * `TEdge.deleteFromAEL` on an active edge, with the head written back:
     * the edge leaves the AEL, which keeps every other edge in its order.
     */
    method DeleteFromAEL(e: int)
      requires Valid() && e in ael
      modifies this`edges, this`activeEdges, this`ael
      ensures BoundsKept(old(edges), edges)
      ensures Valid() && OnlyLinksChanged(old(edges), edges, AEL) && Detached(edges[e], AEL)
      ensures ael == Dropped(old(ael), e, true)
      ensures forall x :: x in ael <==> x in old(ael) && x != e
    {
      ghost var p := IndexOf(ael, e);
      var r, head := DeleteFrom(edges, AEL, e, activeEdges, ael, p);
      OnlyLinksKeepBounds(edges, r, AEL);
      OtherListKept(edges, r, AEL, SEL);
      ChainKept(edges, r, SEL, sel);
      forall x
        ensures x in Dropped(ael, e, true) <==> x in ael && x != e
      {
        DroppedMembers(ael, e, x);
      }
      edges, activeEdges := r, head;
      ael := Dropped(ael, e, true);
    }

    /** The count update of `IntersectEdges` for two closed edges, as `CrossedCounts` gives it. */
    method CrossCounts(edge1: int, edge2: int)
      requires Valid() && 0 <= edge1 < |edges| && 0 <= edge2 < |edges| && edge1 != edge2
      modifies this`edges
      ensures BoundsKept(old(edges), edges)
      ensures Valid() && edges == Counted(old(edges), edge1, edge2, clipFillType, subjFillType)
    {
      var c := CrossedCounts(edges[edge1], edges[edge2], clipFillType, subjFillType);
      var r := edges[edge1 := c.0][edge2 := c.1];
      ListsKept(edges, r, activeEdges, ael, sortedEdges, sel);
      edges := r;
    }

    /** `TEdge.swapSides`, followed by `TEdge.swapPolyIndexes` when `indexes` holds. */
    method SwapSidesOf(edge1: int, edge2: int, indexes: bool)
      requires Valid() && 0 <= edge1 < |edges| && 0 <= edge2 < |edges|
      modifies this`edges
      ensures BoundsKept(old(edges), edges)
      ensures Valid()
      ensures edges == if indexes then PolyIndexesSwapped(SidesSwapped(old(edges), edge1, edge2), edge1, edge2)
                       else SidesSwapped(old(edges), edge1, edge2)
    {
      var r := SwapSides(edges, edge1, edge2);
      if indexes {
        r := SwapPolyIndexes(r, edge1, edge2);
      }
      ListsKept(edges, r, activeEdges, ael, sortedEdges, sel);
      edges := r;
    }

    /** `e.OutIdx = -1`: the edge leaves its fragment. */
    method ClearOutIdx(e: int)
      requires Valid() && 0 <= e < |edges|
      modifies this`edges
      ensures BoundsKept(old(edges), edges)
      ensures Valid() && edges == old(edges)[e := old(edges)[e].(OutIdx := UNASSIGNED)]
    {
      var r := edges[e := edges[e].(OutIdx := UNASSIGNED)];
      ListsKept(edges, r, activeEdges, ael, sortedEdges, sel);
      edges := r;
    }

    /**
     * The output step of a crossing with an open edge (see `OpenCrossing`
     * and `OpenStepDone`): `OpenMax` closes both fragments at a maximum; a
     * point action adds `pt` to that edge's fragment and, when `clear`
     * holds, then takes the edge off its fragment.  A failed output
     * operation fails.  `t` records the intermediate states.
     */
    method PerformOpen(edge1: int, edge2: int, pt: IntPoint, a: OpenAction) returns (res: Result<(), string>, ghost t: OutputTrace)
      requires Valid() && 0 <= edge1 < |edges| && 0 <= edge2 < |edges|
      modifies this`edges, this`outPts, this`polyOuts, this`rings, this`owner
      ensures BoundsKept(old(edges), edges)
      ensures Valid() && |edges| == |old(edges)|
      ensures a == OpenNothing ==> res.Success? && edges == old(edges) && outPts == old(outPts) && polyOuts == old(polyOuts)
      ensures CrossingDone(env, ael, edge1, edge2, pt, Open(a), Snapshot(old(edges), old(outPts), old(polyOuts), old(rings), old(owner)), t, joins, joins)
      ensures t.after == Snapshot(edges, outPts, polyOuts, rings, owner) && t.res == res
    {
      ghost var before := Snapshot(edges, outPts, polyOuts, rings, owner);
      t := OutputTrace(before, Failure(""), before, Failure(""), Failure(""), before, Success(()));
      match a
      case OpenNothing =>
        res := Success(());
      case OpenMax =>
        ghost var m1, r1, m2, r2;
        res, m1, r1, m2, r2 := AddLocalMaxPoly(edge1, edge2, pt);
        t := OutputTrace(m1, r1, m2, r2, Failure(""), Snapshot(edges, outPts, polyOuts, rings, owner), res);
      case PointOnFirst(clear) =>
        res, t := PointAndClear(edge1, pt, clear);
      case PointOnSecond(clear) =>
        res, t := PointAndClear(edge2, pt, clear);
    }

    /** A point action of `PerformOpen` (see `PointCleared`). */
    method PointAndClear(e: int, pt: IntPoint, clear: bool) returns (res: Result<(), string>, ghost t: OutputTrace)
      requires Valid() && 0 <= e < |edges|
      modifies this`edges, this`outPts, this`polyOuts, this`rings, this`owner
      ensures BoundsKept(old(edges), edges)
      ensures Valid() && |edges| == |old(edges)|
      ensures PointCleared(env, e, pt, clear, Snapshot(old(edges), old(outPts), old(polyOuts), old(rings), old(owner)), t)
      ensures t.after == Snapshot(edges, outPts, polyOuts, rings, owner) && t.res == res
    {
      var added := AddOutPt(e, pt);
      ghost var m1 := Snapshot(edges, outPts, polyOuts, rings, owner);
      if added.Failure? {
        res := Failure(added.error);
        return res, OutputTrace(m1, added, m1, added, Failure(""), m1, res);
      }
      if clear {
        ClearOutIdx(e);
      }
      res := Success(());
      t := OutputTrace(m1, added, m1, added, Failure(""), Snapshot(edges, outPts, polyOuts, rings, owner), res);
    }

    /**
     * The output step of a crossing of two closed edges (see
     * `ClosedCrossing` and `ClosedStepDone`): close the fragments at a
     * maximum; add `pt` to both fragments or to one and exchange the edges'
     * sides and fragment indexes; start a fragment at a minimum; only
     * exchange sides; or nothing.  A failed output operation fails.  `t`
     * records the intermediate states.
     */
    method PerformClosed(edge1: int, edge2: int, pt: IntPoint, a: ClosedAction) returns (res: Result<(), string>, ghost t: OutputTrace)
      requires Valid() && 0 <= edge1 < |edges| && 0 <= edge2 < |edges|
      modifies this`edges, this`outPts, this`polyOuts, this`rings, this`owner, this`joins
      ensures BoundsKept(old(edges), edges)
      ensures Valid() && |edges| == |old(edges)|
      ensures a == ClosedNothing ==> res.Success? && edges == old(edges) && outPts == old(outPts) && polyOuts == old(polyOuts)
      ensures a == SidesOnly ==>
        res.Success? && edges == SidesSwapped(old(edges), edge1, edge2) && outPts == old(outPts) && polyOuts == old(polyOuts)
      ensures CrossingDone(env, ael, edge1, edge2, pt, Closed(a), Snapshot(old(edges), old(outPts), old(polyOuts), old(rings), old(owner)),
        t, old(joins), joins)
      ensures t.after == Snapshot(edges, outPts, polyOuts, rings, owner) && t.res == res
    {
      ghost var before := Snapshot(edges, outPts, polyOuts, rings, owner);
      t := OutputTrace(before, Failure(""), before, Failure(""), Failure(""), before, Success(()));
      match a
      case ClosedNothing =>
        res := Success(());
      case SidesOnly =>
        SwapSidesOf(edge1, edge2, false);
        res := Success(());
        t := t.(after := Snapshot(edges, outPts, polyOuts, rings, owner));
      case AtLocalMax =>
        res, t := CloseOrStart(edge1, edge2, pt, a);
      case AtLocalMin =>
        res, t := CloseOrStart(edge1, edge2, pt, a);
      case PointOnBoth =>
        res, t := PointsForAction(edge1, edge2, pt, a);
      case PointOnFirstOnly =>
        res, t := PointsForAction(edge1, edge2, pt, a);
      case PointOnSecondOnly =>
        res, t := PointsForAction(edge1, edge2, pt, a);
    }

    /** The `AtLocalMax` and `AtLocalMin` cases of `PerformClosed`. */
    method CloseOrStart(edge1: int, edge2: int, pt: IntPoint, a: ClosedAction) returns (res: Result<(), string>, ghost t: OutputTrace)
      requires Valid() && 0 <= edge1 < |edges| && 0 <= edge2 < |edges| && (a == AtLocalMax || a == AtLocalMin)
      modifies this`edges, this`outPts, this`polyOuts, this`rings, this`owner, this`joins
      ensures BoundsKept(old(edges), edges)
      ensures Valid() && |edges| == |old(edges)|
      ensures CrossingDone(env, ael, edge1, edge2, pt, Closed(a), Snapshot(old(edges), old(outPts), old(polyOuts), old(rings), old(owner)),
        t, old(joins), joins)
      ensures t.after == Snapshot(edges, outPts, polyOuts, rings, owner) && t.res == res
    {
      if a == AtLocalMax {
        ghost var m1, r1, m2, r2;
        res, m1, r1, m2, r2 := AddLocalMaxPoly(edge1, edge2, pt);
        t := OutputTrace(m1, r1, m2, r2, Failure(""), Snapshot(edges, outPts, polyOuts, rings, owner), res);
      } else {
        ghost var m0, r1, m, r2;
        var started;
        started, m0, r1, m, r2 := AddLocalMinPoly(edge1, edge2, pt);
        res := if started.Success? then Success(()) else Failure(started.error);
        t := OutputTrace(m0, r1, m, r2, started, Snapshot(edges, outPts, polyOuts, rings, owner), res);
      }
    }

    /** The `PointOn...` cases of `PerformClosed` (see `AddPointsAndSwap`). */
    method PointsForAction(edge1: int, edge2: int, pt: IntPoint, a: ClosedAction) returns (res: Result<(), string>, ghost t: OutputTrace)
      requires Valid() && 0 <= edge1 < |edges| && 0 <= edge2 < |edges|
      requires a == PointOnBoth || a == PointOnFirstOnly || a == PointOnSecondOnly
      modifies this`edges, this`outPts, this`polyOuts, this`rings, this`owner
      ensures BoundsKept(old(edges), edges)
      ensures Valid() && |edges| == |old(edges)|
      ensures CrossingDone(env, ael, edge1, edge2, pt, Closed(a), Snapshot(old(edges), old(outPts), old(polyOuts), old(rings), old(owner)),
        t, joins, joins)
      ensures t.after == Snapshot(edges, outPts, polyOuts, rings, owner) && t.res == res
    {
      res, t := AddPointsAndSwap(edge1, edge2, pt, a != PointOnSecondOnly, a != PointOnFirstOnly);
    }

    /** Adds `pt` to the fragment of edge `e` when `add` holds (see `PointAddedWhen`). */
    method AddPointWhen(e: int, pt: IntPoint, add: bool) returns (added: Result<int, string>)
      requires Valid() && 0 <= e < |edges|
      modifies this`edges, this`outPts, this`polyOuts, this`rings, this`owner
      ensures BoundsKept(old(edges), edges)
      ensures Valid() && |edges| == |old(edges)|
      ensures PointAddedWhen(env, add, e, pt, Snapshot(old(edges), old(outPts), old(polyOuts), old(rings), old(owner)),
        Snapshot(edges, outPts, polyOuts, rings, owner), added)
    {
      if add {
        added := AddOutPt(e, pt);
      } else {
        added := Failure("");
      }
    }

    /**
     * The middle cases of `PerformClosed` (see `PointsSwapped`): `pt` is
     * added to the first edge's fragment when `first` holds and then to the
     * second's when `second` holds (see `AddOutPt`), and the edges exchange
     * sides and fragment indexes.  A failed addition fails before the
     * exchange.
     */
    method AddPointsAndSwap(edge1: int, edge2: int, pt: IntPoint, first: bool, second: bool)
      returns (res: Result<(), string>, ghost t: OutputTrace)
      requires Valid() && 0 <= edge1 < |edges| && 0 <= edge2 < |edges|
      modifies this`edges, this`outPts, this`polyOuts, this`rings, this`owner
      ensures BoundsKept(old(edges), edges)
      ensures Valid() && |edges| == |old(edges)|
      ensures PointsSwapped(env, edge1, edge2, pt, first, second, Snapshot(old(edges), old(outPts), old(polyOuts), old(rings), old(owner)), t)
      ensures t.after == Snapshot(edges, outPts, polyOuts, rings, owner) && t.res == res
    {
      var r1 := AddPointWhen(edge1, pt, first);
      ghost var m1 := Snapshot(edges, outPts, polyOuts, rings, owner);
      if first && r1.Failure? {
        res := Failure(r1.error);
        return res, OutputTrace(m1, r1, m1, r1, Failure(""), m1, res);
      }
      res, t := SecondPointAndSwap(edge1, edge2, pt, second);
      t := t.(r1 := r1);
    }

    /** The second half of `AddPointsAndSwap` (see `SecondSwapped`); `t.m1` is the state on entry. */
    method SecondPointAndSwap(edge1: int, edge2: int, pt: IntPoint, second: bool)
      returns (res: Result<(), string>, ghost t: OutputTrace)
      requires Valid() && 0 <= edge1 < |edges| && 0 <= edge2 < |edges|
      modifies this`edges, this`outPts, this`polyOuts, this`rings, this`owner
      ensures BoundsKept(old(edges), edges)
      ensures Valid() && |edges| == |old(edges)|
      ensures t.m1 == Snapshot(old(edges), old(outPts), old(polyOuts), old(rings), old(owner))
      ensures SecondSwapped(env, edge1, edge2, pt, second, t)
      ensures t.after == Snapshot(edges, outPts, polyOuts, rings, owner) && t.res == res
    {
      ghost var m1 := Snapshot(edges, outPts, polyOuts, rings, owner);
      var r2 := AddPointWhen(edge2, pt, second);
      ghost var m2 := Snapshot(edges, outPts, polyOuts, rings, owner);
      if second && r2.Failure? {
        res := Failure(r2.error);
        return res, OutputTrace(m1, r2, m2, r2, Failure(""), m2, res);
      }
      SwapSidesOf(edge1, edge2, true);
      res := Success(());
      t := OutputTrace(m1, r2, m2, r2, Failure(""), Snapshot(edges, outPts, polyOuts, rings, owner), res);
    }

    /**
     * The end of a crossing with an open edge: every edge that ends at the
     * crossing leaves the AEL, but an edge that ends here still holding a
     * fragment is an error ("Error intersecting polylines"), raised before
     * that edge is removed.
     */
    method DropStoppedOpen(edge1: int, edge2: int, stops1: bool, stops2: bool) returns (res: Result<(), string>)
      requires Valid() && edge1 in ael && edge2 in ael && edge1 != edge2
      modifies this`edges, this`activeEdges, this`ael
      ensures BoundsKept(old(edges), edges)
      ensures forall x :: x in ael ==> x in old(ael)
      ensures Valid() && |edges| == |old(edges)|
      ensures res.Failure? <==> (stops1 && old(edges)[edge1].OutIdx >= 0) || (stops2 && old(edges)[edge2].OutIdx >= 0)
      ensures res.Success? ==> ael == Dropped(Dropped(old(ael), edge1, stops1), edge2, stops2)
      ensures !stops1 && !stops2 ==> ael == old(ael)
    {
      if stops1 {
        if edges[edge1].OutIdx >= 0 {
          return Failure("Error intersecting polylines");
        }
        DeleteFromAEL(edge1);
      }
      if stops2 {
        if edges[edge2].OutIdx >= 0 {
          return Failure("Error intersecting polylines");
        }
        DeleteFromAEL(edge2);
      }
      res := Success(());
    }

    /**
     * The end of a crossing of two closed edges: when exactly one edge ends
     * here and it still holds a fragment, the edges exchange sides and
     * fragment indexes; then every edge that ends here leaves the AEL.
     */
    method DropStoppedClosed(edge1: int, edge2: int, stops1: bool, stops2: bool)
      requires Valid() && edge1 in ael && edge2 in ael && edge1 != edge2
      modifies this`edges, this`activeEdges, this`ael
      ensures BoundsKept(old(edges), edges)
      ensures forall x :: x in ael ==> x in old(ael)
      ensures Valid() && |edges| == |old(edges)| && outPts == old(outPts) && polyOuts == old(polyOuts)
      ensures ael == Dropped(Dropped(old(ael), edge1, stops1), edge2, stops2)
    {
      if stops1 != stops2 && ((stops1 && edges[edge1].OutIdx >= 0) || (stops2 && edges[edge2].OutIdx >= 0)) {
        SwapSidesOf(edge1, edge2, true);
      }
      if stops1 {
        DeleteFromAEL(edge1);
      }
      if stops2 {
        DeleteFromAEL(edge2);
      }
    }

    /**
     * A crossing with an open edge, once decided (`a`): the output step, then
     * the removal of the edges that end here (`DropStoppedOpen`).
     */
    method IntersectOpen(edge1: int, edge2: int, pt: IntPoint, stops1: bool, stops2: bool, a: OpenAction)
      returns (res: Result<(), string>, ghost t: OutputTrace)
      requires Valid() && edge1 in ael && edge2 in ael && edge1 != edge2
      modifies this`edges, this`activeEdges, this`ael, this`outPts, this`polyOuts, this`rings, this`owner
      ensures BoundsKept(old(edges), edges)
      ensures forall x :: x in ael ==> x in old(ael)
      ensures Valid() && |edges| == |old(edges)|
      ensures res.Success? ==> ael == Dropped(Dropped(old(ael), edge1, stops1), edge2, stops2)
      ensures !stops1 && !stops2 ==> ael == old(ael)
      ensures a == OpenNothing ==> outPts == old(outPts) && polyOuts == old(polyOuts)
      ensures CrossingDone(env, old(ael), edge1, edge2, pt, Open(a), Snapshot(old(edges), old(outPts), old(polyOuts), old(rings), old(owner)),
        t, joins, joins)
      ensures outPts == t.after.pts && polyOuts == t.after.recs && (res.Success? ==> t.res.Success?)
    {
      res, t := PerformOpen(edge1, edge2, pt, a);
      if res.Success? {
        res := DropStoppedOpen(edge1, edge2, stops1, stops2);
      }
    }

    /**
     * A crossing of two closed edges, once decided (`a`, from the updated
     * counts): the count update (`crossed` is the arena right after it), the
     * output step, then the end of the crossing (`DropStoppedClosed`).
     */
    method IntersectClosed(edge1: int, edge2: int, pt: IntPoint, stops1: bool, stops2: bool, a: ClosedAction)
      returns (res: Result<(), string>, ghost crossed: seq<TEdge>, ghost t: OutputTrace)
      requires Valid() && edge1 in ael && edge2 in ael && edge1 != edge2
      modifies this`edges, this`activeEdges, this`ael, this`outPts, this`polyOuts, this`rings, this`owner, this`joins
      ensures BoundsKept(old(edges), edges)
      ensures forall x :: x in ael ==> x in old(ael)
      ensures Valid() && |edges| == |old(edges)|
      ensures crossed == Counted(old(edges), edge1, edge2, old(clipFillType), old(subjFillType))
      ensures res.Success? ==> ael == Dropped(Dropped(old(ael), edge1, stops1), edge2, stops2)
      ensures !stops1 && !stops2 ==> ael == old(ael)
      ensures a == ClosedNothing || a == SidesOnly ==> outPts == old(outPts) && polyOuts == old(polyOuts)
      ensures CrossingDone(env, old(ael), edge1, edge2, pt, Closed(a), Snapshot(crossed, old(outPts), old(polyOuts), old(rings), old(owner)),
        t, old(joins), joins)
      ensures outPts == t.after.pts && polyOuts == t.after.recs && res == t.res
    {
      CrossCounts(edge1, edge2);
      crossed := edges;
      res, t := PerformAndDropClosed(edge1, edge2, pt, stops1, stops2, a);
      BoundsKeptTrans(old(edges), crossed, edges);
      QuietCrossingKeepsOutput(env, old(ael), edge1, edge2, pt, Closed(a), Snapshot(crossed, old(outPts), old(polyOuts), old(rings), old(owner)),
        t, old(joins), joins);
    }

    /** `IntersectClosed` after the count update: the output step, then `DropStoppedClosed`. */
    method PerformAndDropClosed(edge1: int, edge2: int, pt: IntPoint, stops1: bool, stops2: bool, a: ClosedAction)
      returns (res: Result<(), string>, ghost t: OutputTrace)
      requires Valid() && edge1 in ael && edge2 in ael && edge1 != edge2
      modifies this`edges, this`activeEdges, this`ael, this`outPts, this`polyOuts, this`rings, this`owner, this`joins
      ensures BoundsKept(old(edges), edges)
      ensures forall x :: x in ael ==> x in old(ael)
      ensures Valid() && |edges| == |old(edges)|
      ensures res.Success? ==> ael == Dropped(Dropped(old(ael), edge1, stops1), edge2, stops2)
      ensures !stops1 && !stops2 ==> ael == old(ael)
      ensures CrossingDone(env, old(ael), edge1, edge2, pt, Closed(a), Snapshot(old(edges), old(outPts), old(polyOuts), old(rings), old(owner)),
        t, old(joins), joins)
      ensures outPts == t.after.pts && polyOuts == t.after.recs && res == t.res
    {
      res, t := PerformClosed(edge1, edge2, pt, a);
      if res.Success? {
        ghost var performed := edges;
        DropStoppedClosed(edge1, edge2, stops1, stops2);
        BoundsKeptTrans(old(edges), performed, edges);
      }
    }

    /**
     * `IntersectEdges(edge1, edge2, pt, isProtect)` for two active edges,
     * `edge1` left of `edge2` below the crossing.  The decision `act` is
     * `Decide` on the two edges as they were; for two closed edges the
     * counts are first updated (`crossed` is the arena right after that).
     * Then the output step runs, and then every edge that ends at the
     * crossing leaves the AEL (see `DropStoppedOpen`, `DropStoppedClosed`).
     * A failed output step fails.  A protected crossing never removes an
     * edge, and a crossing that decides nothing, or only an exchange of
     * sides, adds no output.
     */
    method IntersectEdges(edge1: int, edge2: int, pt: IntPoint, isProtect: bool)
      returns (res: Result<(), string>, act: Crossing, ghost crossed: seq<TEdge>, ghost t: OutputTrace)
      requires Valid() && edge1 in ael && edge2 in ael && edge1 != edge2
      modifies this`edges, this`activeEdges, this`ael, this`outPts, this`polyOuts, this`rings, this`owner, this`joins
      ensures BoundsKept(old(edges), edges)
      ensures Among(ael, old(ael))
      ensures Valid() && |edges| == |old(edges)|
      ensures act == Decide(old(edges)[edge1], old(edges)[edge2], pt, isProtect, clipType, clipFillType, subjFillType)
      ensures crossed == if act.Open? then old(edges) else Counted(old(edges), edge1, edge2, clipFillType, subjFillType)
      ensures isProtect ==> ael == old(ael)
      ensures res.Success? ==> ael == Dropped(Dropped(old(ael), edge1, Stops(old(edges)[edge1], pt, isProtect)),
                                              edge2, Stops(old(edges)[edge2], pt, isProtect))
      ensures act == Open(OpenNothing) || act == Closed(ClosedNothing) || act == Closed(SidesOnly) ==>
        outPts == old(outPts) && polyOuts == old(polyOuts)
      ensures CrossingDone(env, old(ael), edge1, edge2, pt, act, Snapshot(crossed, old(outPts), old(polyOuts), old(rings), old(owner)),
        t, old(joins), joins)
      ensures outPts == t.after.pts && polyOuts == t.after.recs && (res.Success? ==> t.res.Success?)
    {
      var e1, e2 := edges[edge1], edges[edge2];
      var stops1, stops2 := Stops(e1, pt, isProtect), Stops(e2, pt, isProtect);
      act := Decide(e1, e2, pt, isProtect, clipType, clipFillType, subjFillType);
      res, crossed, t := CrossAs(edge1, edge2, pt, stops1, stops2, act);
    }

    /** The crossing of `IntersectEdges` once the decision `act` and the edges that end there are known. */
    method CrossAs(edge1: int, edge2: int, pt: IntPoint, stops1: bool, stops2: bool, act: Crossing)
      returns (res: Result<(), string>, ghost crossed: seq<TEdge>, ghost t: OutputTrace)
      requires Valid() && edge1 in ael && edge2 in ael && edge1 != edge2
      modifies this`edges, this`activeEdges, this`ael, this`outPts, this`polyOuts, this`rings, this`owner, this`joins
      ensures BoundsKept(old(edges), edges)
      ensures Among(ael, old(ael))
      ensures Valid() && |edges| == |old(edges)|
      ensures crossed == if act.Open? then old(edges) else Counted(old(edges), edge1, edge2, clipFillType, subjFillType)
      ensures res.Success? ==> ael == Dropped(Dropped(old(ael), edge1, stops1), edge2, stops2)
      ensures !stops1 && !stops2 ==> ael == old(ael)
      ensures act == Open(OpenNothing) || act == Closed(ClosedNothing) || act == Closed(SidesOnly) ==>
        outPts == old(outPts) && polyOuts == old(polyOuts)
      ensures CrossingDone(env, old(ael), edge1, edge2, pt, act, Snapshot(crossed, old(outPts), old(polyOuts), old(rings), old(owner)),
        t, old(joins), joins)
      ensures outPts == t.after.pts && polyOuts == t.after.recs && (res.Success? ==> t.res.Success?)
    {
      match act {
      case Open(a) =>
        crossed := edges;
        res, t := IntersectOpen(edge1, edge2, pt, stops1, stops2, a);
      case Closed(a) =>
        res, crossed, t := IntersectClosed(edge1, edge2, pt, stops1, stops2, a);
      }
    }

    /**
     * `ProcessIntersectList`: cross the two edges of every node in turn
     * (protected, so no edge leaves the AEL) and exchange them in the AEL;
     * the AEL ends as the list's replay of it and the list is emptied.  A
     * failed crossing fails.
     */
    method ProcessIntersectList() returns (res: Result<(), string>)
      requires Valid() && Playable(ael, intersectList) && Proper(intersectList)
      modifies this`edges, this`activeEdges, this`ael, this`outPts, this`polyOuts, this`rings, this`owner, this`joins, this`intersectList
      ensures Valid()
      ensures res.Success? ==> ael == Replay(old(ael), old(intersectList)) && intersectList == []
    {
      var list := intersectList;
      var i := 0;
      while i < |list|
        invariant 0 <= i <= |list| && Valid() && list == old(intersectList) && Proper(list)
        invariant Playable(ael, list[i..]) && Replay(ael, list[i..]) == Replay(old(ael), list)
      {
        var n := list[i];
        assert list[i..][0] == n && list[i..][1..] == list[i + 1..];
        var crossedRes, act;
        ghost var crossed, trace;
        crossedRes, act, crossed, trace := IntersectEdges(n.Edge1, n.Edge2, n.Pt, true);
        if crossedRes.Failure? {
          return Failure(crossedRes.error);
        }
        ActiveNotRefused(edges, activeEdges, ael, n.Edge1, n.Edge2);
        SwapPositionsInAEL(n.Edge1, n.Edge2);
        i := i + 1;
      }
      intersectList := [];
      return Success(());
    }

    /** `m_SortedEdges = null`: the SEL is given up (its edges keep their SEL links). */
    method ClearSortedEdges()
      requires Valid()
      modifies this`sortedEdges, this`sel
      ensures Valid() && sortedEdges == NULL && sel == []
    {
      sortedEdges, sel := NULL, [];
    }

    /**
     * The part of `ProcessIntersections` after the list is built: an empty
     * list gives true; a single node, or a list whose order the repair puts
     * right, is processed in that order (`nodes`) and gives true with the
     * SEL head null; a list the repair gives up on gives false, leaving the
     * repaired list in place.  A failure while processing nulls the SEL
     * head, empties the list and fails.
     */
    method ProcessBuiltList() returns (res: Result<bool, string>, ghost nodes: seq<IntersectNode>)
      requires Valid() && sortedEdges == NULL && AllIn(intersectList, ael) && Proper(intersectList) && Playable(ael, intersectList)
      modifies this`edges, this`activeEdges, this`ael, this`sortedEdges, this`sel, this`outPts, this`polyOuts,
        this`rings, this`owner, this`joins, this`intersectList
      ensures Valid()
      ensures res.Failure? ==> sortedEdges == NULL && intersectList == []
      ensures res.Success? ==> |nodes| == |old(intersectList)| && Within(nodes, old(intersectList))
      ensures res == Success(true) ==>
        sortedEdges == NULL && intersectList == [] && Playable(old(ael), nodes) && ael == Replay(old(ael), nodes)
      ensures res == Success(false) ==> intersectList == nodes && |nodes| >= 2
      ensures res == Success(true) ==> Rearranged(old(ael), old(intersectList), nodes)
    {
      nodes := intersectList;
      if |intersectList| == 0 {
        assert Replay(ael, nodes) == ael;
        return Success(true), nodes;
      }
      if |intersectList| != 1 {
        var ok := FixupIntersectionOrder();
        FixedUpNodes(ael, nodes, intersectList, ok, sel);
        if !ok {
          nodes := intersectList;
          return Success(false), nodes;
        }
        FixedUpSteps(ael, nodes, intersectList, sel);
        nodes := intersectList;
      }
      var processed := ProcessIntersectList();
      ClearSortedEdges();
      if processed.Failure? {
        intersectList := [];
        return Failure("ProcessIntersections error"), nodes;
      }
      res := Success(true);
    }

    /**
     * `ProcessIntersections(botY, topY)`: with no active edges, true.
     * Otherwise build the intersection list (`built`, with the arena `mid`
     * as the build left it) and go on as `ProcessBuiltList` says.  A
     * failure while building nulls the SEL head, empties the list and
     * fails.
     */
    method ProcessIntersections(botY: int, topY: int)
      returns (res: Result<bool, string>, ghost mid: seq<TEdge>, ghost built: seq<IntersectNode>, ghost nodes: seq<IntersectNode>)
      requires Valid() && intersectList == []
      modifies this`edges, this`activeEdges, this`ael, this`sortedEdges, this`sel, this`outPts, this`polyOuts,
        this`rings, this`owner, this`joins, this`intersectList
      ensures Valid()
      ensures old(activeEdges) == NULL ==> res == Success(true) && edges == old(edges) && ael == old(ael) && intersectList == []
      ensures res.Failure? ==> sortedEdges == NULL && intersectList == []
      ensures old(activeEdges) != NULL && res.Success? ==> Bubbled(env.geo, topY, old(ael), old(edges), mid, [], built)
      ensures res.Success? ==> |nodes| == |built| && Within(nodes, built)
      ensures res == Success(true) ==> intersectList == [] && Playable(old(ael), nodes) && ael == Replay(old(ael), nodes)
      ensures old(activeEdges) != NULL && res == Success(true) ==> sortedEdges == NULL
      ensures res == Success(false) ==> intersectList == nodes && |nodes| >= 2
      ensures old(activeEdges) != NULL && res == Success(true) ==> InArena(mid, ael) && SortedByX(mid, ael)
    {
      mid, built, nodes := edges, [], [];
      if activeEdges == NULL {
        assert Replay(ael, nodes) == ael;
        return Success(true), mid, built, nodes;
      }
      var r := BuildIntersectList(botY, topY);
      if r.Failure? {
        ClearSortedEdges();
        intersectList := [];
        return Failure("ProcessIntersections error"), mid, built, nodes;
      }
      mid, built := edges, intersectList;
      BubbledNodes(env.geo, topY, ael, old(edges), edges, built);
      ghost var order := ael;
      assert Distinct(order);
      res, nodes := ProcessBuiltList();
      if res == Success(true) {
        ProcessedSorted(env.geo, topY, order, old(edges), mid, built, nodes);
      }
    }

    // -------------------------------------------------------------------
    // Horizontal edges
    // -------------------------------------------------------------------

    /**
     * `TEdge.deleteFromSEL` on a sorted edge, with the head written back:
     * the edge leaves the SEL, which keeps every other edge in its order.
     */
    method DeleteFromSEL(e: int)
      requires Valid() && e in sel
      modifies this`edges, this`sortedEdges, this`sel
      ensures BoundsKept(old(edges), edges)
      ensures Valid() && OnlyLinksChanged(old(edges), edges, SEL) && Detached(edges[e], SEL)
      ensures sel == Dropped(old(sel), e, true)
      ensures forall x :: x in sel <==> x in old(sel) && x != e
    {
      ghost var p := IndexOf(sel, e);
      var r, head := DeleteFrom(edges, SEL, e, sortedEdges, sel, p);
      OnlyLinksKeepBounds(edges, r, SEL);
      OtherListKept(edges, r, SEL, AEL);
      ChainKept(edges, r, AEL, ael);
      forall x
        ensures x in Dropped(sel, e, true) <==> x in sel && x != e
      {
        DroppedMembers(sel, e, x);
      }
      edges, sortedEdges := r, head;
      sel := Dropped(sel, e, true);
    }

    /** Whether `x` is on the AEL, found by walking the AEL from its head. */
    method InAel(x: int) returns (b: bool)
      requires Valid()
      ensures b <==> x in ael
    {
      var e := activeEdges;
      ghost var i := 0;
      while e != NULL
        invariant 0 <= i <= |ael| && e == At(ael, i) && x !in ael[..i]
        decreases |ael| - i
      {
        if e == x {
          return true;
        }
        assert ael[..i + 1] == ael[..i] + [e];
        e := edges[e].NextInAEL;
        i := i + 1;
      }
      assert ael[..i] == ael;
      return false;
    }

    /**
     * The walk of `ProcessHorizontal` to the last horizontal of the run that
     * starts at `horz`: it stops where the next edge of the bound is missing
     * or not horizontal.
     */
    method FindLastHorz(horz: int, ghost rank: seq<nat>, ghost bound: seq<int>) returns (last: int)
      requires Valid() && 0 <= horz < |edges| && BoundsRanked(edges, rank, bound)
      ensures last == LastHorz(edges, rank, bound, horz)
    {
      last := horz;
      while edges[last].NextInLML != NULL && IsHorizontal(edges[edges[last].NextInLML])
        invariant 0 <= last < |edges| && LastHorz(edges, rank, bound, last) == LastHorz(edges, rank, bound, horz)
        decreases rank[last]
      {
        assert BoundStep(edges, rank, bound, last);
        LastHorzStep(edges, rank, bound, last);
        last := edges[last].NextInLML;
      }
    }

    /** `AddGhostJoin`: remember output point `op`, with offset point `offPt`, as a join still missing its second point. */
    method AddGhostJoin(op: int, offPt: IntPoint)
      modifies this`ghostJoins
      ensures ghostJoins == old(ghostJoins) + [Join(op, NULL, offPt)]
    {
      ghostJoins := ghostJoins + [Join(op, NULL, offPt)];
    }

    /**
     * `PrepareHorzJoins`: at the top of a scanbeam, a ghost join for the
     * output point at the end of the horizontal's fragment that the edge
     * extends (the first point for a left-side edge, the last for a
     * right-side one), offset to the end of the edge that point is not at.
     * Below the top nothing is recorded.  A fragment index that names no
     * record fails, and so does a record without points whenever its point
     * is needed (the source dereferences null there).
     */
    method PrepareHorzJoins(horz: int, isTop: bool) returns (res: Result<(), string>)
      requires Valid() && 0 <= horz < |edges|
      modifies this`ghostJoins
      ensures Valid()
      ensures res.Failure? <==>
        !(0 <= edges[horz].OutIdx < |polyOuts|) ||
        (polyOuts[edges[horz].OutIdx].Pts == NULL && (edges[horz].Side != Left || isTop))
      ensures res.Failure? || !isTop ==> ghostJoins == old(ghostJoins)
      ensures res.Success? && isTop ==>
        rings[edges[horz].OutIdx] != [] &&
        var op := RingEnd(rings[edges[horz].OutIdx], edges[horz].Side == Left);
        0 <= op < |outPts| &&
        ghostJoins == old(ghostJoins) + [Join(op, NULL, if outPts[op].Pt == edges[horz].Top then edges[horz].Bot else edges[horz].Top)]
    {
      var s := edges[horz].OutIdx;
      if !(0 <= s < |polyOuts|) {
        return Failure("PrepareHorzJoins: the edge has no output record");
      }
      var op := polyOuts[s].Pts;
      if op == NULL && (edges[horz].Side != Left || isTop) {
        return Failure("PrepareHorzJoins: the output record has no points");
      }
      if edges[horz].Side != Left {
        assert RecRing(outPts, polyOuts[s], rings[s]);
        assert outPts[rings[s][0]].Prev == rings[s][Pred(0, |rings[s]|)];
        op := outPts[op].Prev;
      }
      if isTop {
        assert RecRing(outPts, polyOuts[s], rings[s]);
        if outPts[op].Pt == edges[horz].Top {
          AddGhostJoin(op, edges[horz].Bot);
        } else {
          AddGhostJoin(op, edges[horz].Top);
        }
      }
      return Success(());
    }

    /**
     * A horizontal meeting its maxima pair in the direction `dir`: the two
     * cross at `pt`, where both end, so both leave the AEL (the edge on the
     * left goes first to `IntersectEdges`).  The decision, the counts and
     * the output step are those of that crossing.  The pair still holding
     * a fragment afterwards fails.
     */
    method CrossMaxima(horz: int, pair: int, dir: Direction, pt: IntPoint, ghost rank: seq<nat>, ghost bound: seq<int>)
      returns (res: Result<(), string>, act: Crossing, ghost crossed: seq<TEdge>, ghost t: OutputTrace)
      requires Valid() && horz in ael && pair in ael && horz != pair && BoundsOk(edges, ael, rank, bound)
      requires Stops(edges[horz], pt, false) && Stops(edges[pair], pt, false)
      modifies this`edges, this`activeEdges, this`ael, this`outPts, this`polyOuts, this`rings, this`owner, this`joins
      ensures Valid() && BoundsKept(old(edges), edges) && BoundsOk(edges, ael, rank, bound)
      ensures res.Success? ==> edges[pair].OutIdx < 0 && forall x :: x in ael <==> x in old(ael) && x != horz && x != pair
      ensures act == Decide(old(edges)[LeftOfMeeting(horz, pair, dir)], old(edges)[RightOfMeeting(horz, pair, dir)], pt, false,
        clipType, clipFillType, subjFillType)
      ensures crossed == if act.Open? then old(edges)
        else Counted(old(edges), LeftOfMeeting(horz, pair, dir), RightOfMeeting(horz, pair, dir), clipFillType, subjFillType)
      ensures CrossingDone(env, old(ael), LeftOfMeeting(horz, pair, dir), RightOfMeeting(horz, pair, dir), pt, act,
        Snapshot(crossed, old(outPts), old(polyOuts), old(rings), old(owner)), t, old(joins), joins)
      ensures outPts == t.after.pts && polyOuts == t.after.recs && (res.Success? ==> t.res.Success?)
    {
      ghost var before := ael;
      var crossedRes;
      if dir == LeftToRight {
        crossedRes, act, crossed, t := IntersectEdges(horz, pair, pt, false);
        DroppedBoth(before, horz, pair);
      } else {
        crossedRes, act, crossed, t := IntersectEdges(pair, horz, pt, false);
        DroppedBoth(before, pair, horz);
      }
      BoundsRankedKept(old(edges), edges, rank, bound);
      if crossedRes.Failure? {
        return Failure(crossedRes.error), act, crossed, t;
      }
      OnePerBoundFewer(before, ael, bound);
      if edges[pair].OutIdx >= 0 {
        return Failure("ProcessHorizontal error"), act, crossed, t;
      }
      res := Success(());
    }

    /**
     * A horizontal passing the AEL edge `e` next to it in the direction
     * `dir`: a protected crossing at `e`'s current X on the horizontal's
     * line (the edge on the left goes first), then the two change places.
     * The AEL keeps its members, and nothing else in it moves.
     */
    method PassEdge(horz: int, e: int, dir: Direction, ghost rank: seq<nat>, ghost bound: seq<int>) returns (res: Result<(), string>)
      requires Valid() && horz in ael && BoundsOk(edges, ael, rank, bound)
      requires e != NULL && e == At(ael, Toward(IndexOf(ael, horz), dir))
      modifies this`edges, this`activeEdges, this`ael, this`outPts, this`polyOuts, this`rings, this`owner, this`joins
      ensures Valid() && BoundsKept(old(edges), edges) && BoundsOk(edges, ael, rank, bound)
      ensures horz in ael && |ael| == |old(ael)| && forall x :: x in ael <==> x in old(ael)
      ensures res.Success? ==>
        IndexOf(ael, horz) == Toward(IndexOf(old(ael), horz), dir) &&
        forall i :: i != IndexOf(old(ael), horz) && i != Toward(IndexOf(old(ael), horz), dir) ==> At(ael, i) == At(old(ael), i)
    {
      assert e in ael && e != horz;
      var pt := IntPoint(edges[e].Curr.x, edges[horz].Curr.y);
      var crossedRes, act;
      ghost var crossed, trace;
      crossedRes, act, crossed, trace := CrossProtected(horz, e, dir, pt);
      BoundsRankedKept(old(edges), edges, rank, bound);
      if crossedRes.Failure? {
        return Failure(crossedRes.error);
      }
      ghost var mid := edges;
      ExchangeAtMeeting(horz, e, dir, rank, bound);
      BoundsKeptTrans(old(edges), mid, edges);
      return Success(());
    }

    /** The exchange of `PassEdge`: the horizontal and its neighbour `e` in direction `dir` trade AEL places. */
    method ExchangeAtMeeting(horz: int, e: int, dir: Direction, ghost rank: seq<nat>, ghost bound: seq<int>)
      requires Valid() && horz in ael && BoundsOk(edges, ael, rank, bound)
      requires e != NULL && e == At(ael, Toward(IndexOf(ael, horz), dir))
      modifies this`edges, this`activeEdges, this`ael
      ensures Valid() && BoundsKept(old(edges), edges) && BoundsOk(edges, ael, rank, bound)
      ensures horz in ael && |ael| == |old(ael)| && forall x :: x in ael <==> x in old(ael)
      ensures IndexOf(ael, horz) == Toward(IndexOf(old(ael), horz), dir)
      ensures forall i :: i != IndexOf(old(ael), horz) && i != Toward(IndexOf(old(ael), horz), dir) ==> At(ael, i) == At(old(ael), i)
    {
      ghost var before := ael;
      ghost var p := IndexOf(ael, horz);
      ghost var q := Toward(p, dir);
      assert e in ael && e != horz;
      ActiveNotRefused(edges, activeEdges, ael, horz, e);
      SwapMembers(before, p, q);
      SwapPositionsInAEL(horz, e);
      BoundsRankedKept(old(edges), edges, rank, bound);
      OnePerBoundFewer(before, ael, bound);
    }

    /**
     * The protected crossing of `PassEdge`: `horz` and `e` crossed at `pt`,
     * left edge first in the direction `dir`, with the decision, counts and
     * output step of `IntersectEdges`; no edge leaves the AEL.
     */
    method CrossProtected(horz: int, e: int, dir: Direction, pt: IntPoint)
      returns (res: Result<(), string>, act: Crossing, ghost crossed: seq<TEdge>, ghost t: OutputTrace)
      requires Valid() && horz in ael && e in ael && horz != e
      modifies this`edges, this`activeEdges, this`ael, this`outPts, this`polyOuts, this`rings, this`owner, this`joins
      ensures Valid() && BoundsKept(old(edges), edges) && |edges| == |old(edges)| && ael == old(ael)
      ensures act == Decide(old(edges)[LeftOfMeeting(horz, e, dir)], old(edges)[RightOfMeeting(horz, e, dir)], pt, true,
        clipType, clipFillType, subjFillType)
      ensures crossed == if act.Open? then old(edges)
        else Counted(old(edges), LeftOfMeeting(horz, e, dir), RightOfMeeting(horz, e, dir), clipFillType, subjFillType)
      ensures CrossingDone(env, old(ael), LeftOfMeeting(horz, e, dir), RightOfMeeting(horz, e, dir), pt, act,
        Snapshot(crossed, old(outPts), old(polyOuts), old(rings), old(owner)), t, old(joins), joins)
      ensures outPts == t.after.pts && polyOuts == t.after.recs && (res.Success? ==> t.res.Success?)
    {
      if dir == LeftToRight {
        res, act, crossed, t := IntersectEdges(horz, e, pt, true);
      } else {
        res, act, crossed, t := IntersectEdges(e, horz, pt, true);
      }
    }

    /**
     * The horizontal meeting the AEL edge `e` next to it in the direction
     * `dir`, inside its span: a horizontal with a fragment that contributes
     * first prepares its ghost joins (see `PrepareHorzJoins`); then the
     * run's last horizontal meeting its maxima pair crosses it at the
     * pair's top (see `CrossMaxima`) and the result is true, and otherwise
     * the horizontal passes the edge (see `PassEdge`) and the result is
     * false.
     */
    method MeetEdge(horz: int, e: int, dir: Direction, isTop: bool, pair: int, isLast: bool,
      ghost rank: seq<nat>, ghost bound: seq<int>) returns (res: Result<bool, string>)
      requires Valid() && horz in ael && BoundsOk(edges, ael, rank, bound)
      requires e != NULL && e == At(ael, Toward(IndexOf(ael, horz), dir))
      requires pair != NULL && isLast ==>
        0 <= pair < |edges| && pair != horz && edges[horz].NextInLML == NULL && EndsAt(edges[pair], edges[horz].Top)
      modifies this`edges, this`activeEdges, this`ael, this`outPts, this`polyOuts, this`rings, this`owner, this`joins, this`ghostJoins
      ensures Valid() && BoundsKept(old(edges), edges) && BoundsOk(edges, ael, rank, bound)
      ensures !isTop ==> ghostJoins == old(ghostJoins)
      ensures res == Success(true) ==>
        e == pair && isLast && forall x :: x in ael <==> x in old(ael) && x != horz && x != pair
      ensures res == Success(false) ==>
        horz in ael && |ael| == |old(ael)| && (forall x :: x in ael <==> x in old(ael)) &&
        IndexOf(ael, horz) == Toward(IndexOf(old(ael), horz), dir) &&
        forall i :: i != IndexOf(old(ael), horz) && i != Toward(IndexOf(old(ael), horz), dir) ==> At(ael, i) == At(old(ael), i)
    {
      if edges[horz].OutIdx >= 0 && edges[horz].WindDelta != 0 {
        var prepared := PrepareHorzJoins(horz, isTop);
        if prepared.Failure? {
          return Failure(prepared.error);
        }
      }
      if e == pair && isLast {
        assert e in ael;
        var crossed, act;
        ghost var counted, trace;
        crossed, act, counted, trace := CrossMaxima(horz, e, dir, edges[e].Top, rank, bound);
        if crossed.Failure? {
          return Failure(crossed.error);
        }
        return Success(true);
      }
      var passed := PassEdge(horz, e, dir, rank, bound);
      if passed.Failure? {
        return Failure(passed.error);
      }
      return Success(false);
    }

    /**
     * The inner loop of `ProcessHorizontal`: walk from the horizontal `horz`
     * in direction `dir`, meeting every AEL edge whose current X lies within
     * the horizontal's span `[horzLeft, horzRight]` (see `MeetEdge`).  The
     * walk stops early at the end of an intermediate horizontal, where the
     * next edge of the bound would leave to the right of the edge met.
     * When the last horizontal of a run meets its maxima pair the result is
     * true.  Otherwise the result is false and the AEL has the same
     * members, the horizontal among them.
     */
    method HorizontalPass(horz: int, dir: Direction, horzLeft: int, horzRight: int, isTop: bool, pair: int, isLast: bool,
      ghost rank: seq<nat>, ghost bound: seq<int>) returns (res: Result<bool, string>)
      requires Valid() && horz in ael && BoundsOk(edges, ael, rank, bound)
      requires pair != NULL && isLast ==>
        0 <= pair < |edges| && pair != horz && edges[horz].NextInLML == NULL && EndsAt(edges[pair], edges[horz].Top)
      modifies this`edges, this`activeEdges, this`ael, this`outPts, this`polyOuts, this`rings, this`owner, this`joins, this`ghostJoins
      ensures Valid() && BoundsKept(old(edges), edges) && BoundsOk(edges, ael, rank, bound)
      ensures !isTop ==> ghostJoins == old(ghostJoins)
      ensures res == Success(false) ==> horz in ael && forall x :: x in ael <==> x in old(ael)
      ensures res == Success(true) ==>
        pair != NULL && isLast && forall x :: x in ael <==> x in old(ael) && x != horz && x != pair
    {
      GetNextInAELAt(edges, ael, IndexOf(ael, horz), dir);
      var e := GetNextInAEL(edges[horz], dir);
      while e != NULL
        invariant Valid() && horz in ael && BoundsKept(old(edges), edges) && BoundsOk(edges, ael, rank, bound)
        invariant forall x :: x in ael <==> x in old(ael)
        invariant e == At(ael, Toward(IndexOf(ael, horz), dir))
        invariant !isTop ==> ghostJoins == old(ghostJoins)
        decreases if dir == LeftToRight then |ael| - IndexOf(ael, horz) else IndexOf(ael, horz)
      {
        var h := edges[horz];
        assert BoundStep(edges, rank, bound, horz);
        if edges[e].Curr.x == h.Top.x && h.NextInLML != NULL && SlopeGreater(edges[h.NextInLML].Dx, edges[e].Dx) {
          break;
        }
        ghost var q := Toward(IndexOf(ael, horz), dir);
        GetNextInAELAt(edges, ael, q, dir);
        var eNext := GetNextInAEL(edges[e], dir);
        // The source's second test (past the far end) is the negation of this one.
        if !((dir == LeftToRight && edges[e].Curr.x <= horzRight) || (dir == RightToLeft && edges[e].Curr.x >= horzLeft)) {
          break;
        }
        assert pair != NULL && isLast ==> ShapeOf(old(edges)[horz]) == ShapeOf(edges[horz]) && ShapeOf(old(edges)[pair]) == ShapeOf(edges[pair]);
        var met := MeetEdge(horz, e, dir, isTop, pair, isLast, rank, bound);
        if met.Failure? {
          return Failure(met.error);
        }
        if met.value {
          return Success(true);
        }
        e := eNext;
      }
      return Success(false);
    }

    /**
     * After a contributing horizontal has added `op1` at its top and its
     * bound's next edge `n` has taken its place: when `n` contributes and
     * an AEL neighbour sits at its bottom, collinear with it and
     * contributing too (the previous neighbour is tried first), that
     * neighbour gets the point as well and the two points are joined,
     * guided by `n`'s top.
     */
    method JoinAtBottom(n: int, op1: int) returns (res: Result<(), string>, ghost added: Result<int, string>)
      requires Valid() && n in ael
      modifies this`edges, this`outPts, this`polyOuts, this`rings, this`owner, this`joins
      ensures Valid() && BoundsKept(old(edges), edges)
      ensures BottomJoined(env, n, op1, Snapshot(old(edges), old(outPts), old(polyOuts), old(rings), old(owner)),
        Snapshot(edges, outPts, polyOuts, rings, owner), old(joins), joins, added, res)
    {
      assert EdgeLinksIn(edges[n], |edges|);
      var nb := JoinNeighbour(edges, n);
      if nb == NULL {
        return Success(()), Failure("");
      }
      res, added := AddJoinAt(nb, op1, edges[n].Bot, edges[n].Top);
    }

    /**
     * The edge `nb` adds `pt` to its fragment (see `AddOutPt`; `added` is
     * the node it returned) and, unless that fails, that node is joined
     * with `op1`, guided by `offPt`.  The joined node carries `pt` at the
     * end of `nb`'s fragment that its side extends.
     */
    method AddJoinAt(nb: int, op1: int, pt: IntPoint, offPt: IntPoint) returns (res: Result<(), string>, ghost added: Result<int, string>)
      requires Valid() && 0 <= nb < |edges|
      modifies this`edges, this`outPts, this`polyOuts, this`rings, this`owner, this`joins
      ensures Valid() && BoundsKept(old(edges), edges)
      ensures OutPtAdded(env, old(edges), old(outPts), old(polyOuts), old(rings), old(owner), nb, pt,
        edges, outPts, polyOuts, rings, owner, added)
      ensures res.Success? <==> added.Success?
      ensures added.Failure? ==> joins == old(joins)
      ensures added.Success? ==>
        joins == old(joins) + [Join(op1, added.value, offPt)] &&
        0 <= added.value < |outPts| && outPts[added.value].Pt == pt &&
        0 <= edges[nb].OutIdx < |rings| && rings[edges[nb].OutIdx] != [] &&
        added.value == RingEnd(rings[edges[nb].OutIdx], old(edges)[nb].Side == Left)
    {
      var op2 := AddOutPt(nb, pt);
      added := op2;
      if op2.Failure? {
        return Failure(op2.error), added;
      }
      AddedPointAtEnd(env, old(edges), old(outPts), old(polyOuts), old(rings), old(owner), nb, pt,
        edges, outPts, polyOuts, rings, owner, added);
      AddJoin(op1, op2.value, offPt);
      return Success(()), added;
    }

    /**
     * The end of `ProcessHorizontal` when the horizontal's bound goes on:
     * the next edge of the bound takes the horizontal's place on the AEL.
     * A horizontal with a fragment first adds its top to it and then looks
     * for a join at the new edge's bottom (see `JoinAtBottom`).
     */
    method ClimbOffHorizontal(horz: int, ghost rank: seq<nat>, ghost bound: seq<int>)
      returns (res: Result<(), string>, ghost m: Snapshot, ghost op1: Result<int, string>, ghost mid: seq<TEdge>, ghost added: Result<int, string>)
      requires Valid() && horz in ael && BoundsOk(edges, ael, rank, bound) && edges[horz].NextInLML != NULL
      modifies this`edges, this`activeEdges, this`ael, this`outPts, this`polyOuts, this`rings, this`owner, this`joins, this`scanbeam
      ensures Valid() && BoundsKept(old(edges), edges) && BoundsOk(edges, ael, rank, bound)
      ensures res.Success? ==> ael == old(ael)[IndexOf(old(ael), horz) := old(edges)[horz].NextInLML]
      ensures FragmentPointAdded(env, horz, old(edges)[horz].Top, Snapshot(old(edges), old(outPts), old(polyOuts), old(rings), old(owner)), m, op1)
      ensures old(edges)[horz].OutIdx < 0 ==> res.Success? && outPts == old(outPts) && polyOuts == old(polyOuts) && joins == old(joins)
      ensures old(edges)[horz].OutIdx >= 0 && op1.Failure? ==> res.Failure?
      ensures old(edges)[horz].OutIdx >= 0 && op1.Success? ==>
        var n := old(edges)[horz].NextInLML;
        0 <= n < |mid| && mid[n].OutIdx == old(edges)[horz].OutIdx &&
        BottomJoined(env, n, op1.value, Snapshot(mid, m.pts, m.recs, m.rings, m.owner), Snapshot(edges, outPts, polyOuts, rings, owner),
          old(joins), joins, added, res)
    {
      m, mid, added := Snapshot(edges, outPts, polyOuts, rings, owner), edges, Failure("");
      if edges[horz].OutIdx < 0 {
        op1 := Failure("");
        var _ := ReplaceBySuccessor(horz, rank, bound);
        return Success(()), m, op1, mid, added;
      }
      var top := AddOutPt(horz, edges[horz].Top);
      op1, m := top, Snapshot(edges, outPts, polyOuts, rings, owner);
      BoundsRankedKept(old(edges), edges, rank, bound);
      if top.Failure? {
        return Failure(top.error), m, op1, mid, added;
      }
      assert ShapeOf(old(edges)[horz]) == ShapeOf(edges[horz]);
      res, mid, added := ReplaceAndJoin(horz, top.value, rank, bound);
    }

    /**
     * The part of `ClimbOffHorizontal` after a contributing horizontal has
     * added `op1` at its top: the next edge of its bound takes its place
     * (`mid` is the arena then) and looks for a join at its bottom (see
     * `JoinAtBottom`).
     */
    method ReplaceAndJoin(horz: int, op1: int, ghost rank: seq<nat>, ghost bound: seq<int>)
      returns (res: Result<(), string>, ghost mid: seq<TEdge>, ghost added: Result<int, string>)
      requires Valid() && horz in ael && BoundsOk(edges, ael, rank, bound) && edges[horz].NextInLML != NULL
      modifies this`edges, this`activeEdges, this`ael, this`outPts, this`polyOuts, this`rings, this`owner, this`joins, this`scanbeam
      ensures Valid() && BoundsKept(old(edges), edges) && BoundsOk(edges, ael, rank, bound)
      ensures ael == old(ael)[IndexOf(old(ael), horz) := old(edges)[horz].NextInLML]
      ensures var n := old(edges)[horz].NextInLML;
        0 <= n < |mid| && mid[n].OutIdx == old(edges)[horz].OutIdx &&
        BottomJoined(env, n, op1, Snapshot(mid, old(outPts), old(polyOuts), old(rings), old(owner)), Snapshot(edges, outPts, polyOuts, rings, owner),
          old(joins), joins, added, res)
    {
      var n := ReplaceBySuccessor(horz, rank, bound);
      mid := edges;
      res, added := JoinAtBottom(n, op1);
      BoundsRankedKept(mid, edges, rank, bound);
    }

    /**
     * The end of `ProcessHorizontal` at a maximum with a pair: a pair
     * holding a fragment is crossed with the horizontal at the
     * horizontal's top (see `CrossMaxima`); otherwise both simply leave the
     * AEL.  A pair that is not on the AEL fails, unless it holds no
     * fragment and has no AEL links, when only the horizontal leaves.
     */
    method LeaveWithPair(horz: int, dir: Direction, pair: int, ghost rank: seq<nat>, ghost bound: seq<int>) returns (res: Result<(), string>)
      requires Valid() && horz in ael && BoundsOk(edges, ael, rank, bound)
      requires 0 <= pair < |edges| && pair != horz && edges[horz].NextInLML == NULL && EndsAt(edges[pair], edges[horz].Top)
      modifies this`edges, this`activeEdges, this`ael, this`outPts, this`polyOuts, this`rings, this`owner, this`joins
      ensures Valid() && BoundsKept(old(edges), edges) && BoundsOk(edges, ael, rank, bound)
      ensures res.Success? ==> forall x :: x in ael <==> x in old(ael) && x != horz && x != pair
    {
      var active := InAel(pair);
      if edges[pair].OutIdx >= 0 {
        if !active {
          return Failure("ProcessHorizontal: the maxima pair is not active");
        }
        var act;
        ghost var crossed, trace;
        res, act, crossed, trace := CrossMaxima(horz, pair, dir, edges[horz].Top, rank, bound);
        return;
      }
      ghost var before := ael;
      DeleteFromAEL(horz);
      BoundsRankedKept(old(edges), edges, rank, bound);
      OnePerBoundFewer(before, ael, bound);
      if active {
        ghost var mid := ael;
        DeleteFromAEL(pair);
        BoundsRankedKept(old(edges), edges, rank, bound);
        OnePerBoundFewer(mid, ael, bound);
      } else if !Detached(edges[pair], AEL) {
        return Failure("ProcessHorizontal: the maxima pair has stale AEL links");
      }
      return Success(());
    }

    /**
     * The end of `ProcessHorizontal`, on the last horizontal of the run.
     * When its bound goes on, see `ClimbOffHorizontal`; at a maximum with a
     * pair, see `LeaveWithPair`.  Otherwise the horizontal adds its top to
     * its fragment, if it has one, and leaves the AEL.
     */
    method FinishHorizontal(horz: int, dir: Direction, pair: int, ghost rank: seq<nat>, ghost bound: seq<int>)
      returns (res: Result<(), string>, ghost m: Snapshot, ghost op1: Result<int, string>)
      requires Valid() && horz in ael && BoundsOk(edges, ael, rank, bound)
      requires edges[horz].NextInLML != NULL ==> pair == NULL
      requires pair != NULL ==>
        0 <= pair < |edges| && pair != horz && edges[horz].NextInLML == NULL && EndsAt(edges[pair], edges[horz].Top)
      modifies this`edges, this`activeEdges, this`ael, this`outPts, this`polyOuts, this`rings, this`owner, this`joins, this`scanbeam
      ensures Valid() && BoundsKept(old(edges), edges) && BoundsOk(edges, ael, rank, bound)
      ensures res.Success? ==> forall x ::
        x in ael <==> (x in old(ael) && x != horz && x != pair) || (x == old(edges)[horz].NextInLML && x != NULL)
      ensures pair == NULL ==>
        FragmentPointAdded(env, horz, old(edges)[horz].Top, Snapshot(old(edges), old(outPts), old(polyOuts), old(rings), old(owner)), m, op1)
      ensures pair == NULL && old(edges)[horz].OutIdx >= 0 && op1.Failure? ==> res.Failure?
      ensures pair == NULL && old(edges)[horz].NextInLML == NULL ==>
        outPts == m.pts && polyOuts == m.recs && joins == old(joins) && (res.Success? <==> old(edges)[horz].OutIdx < 0 || op1.Success?)
    {
      ghost var before := ael;
      assert forall x :: x in before ==> x != NULL;
      m, op1 := Snapshot(edges, outPts, polyOuts, rings, owner), Failure("");
      if edges[horz].NextInLML != NULL {
        ghost var n := edges[horz].NextInLML;
        ghost var mid, added;
        res, m, op1, mid, added := ClimbOffHorizontal(horz, rank, bound);
        if res.Success? {
          ReplacedMembers(before, IndexOf(before, horz), n);
          forall x
            ensures x in ael <==> (x in before && x != horz && x != pair) || (x == n && x != NULL)
          {
            assert x in ael <==> (x in before && x != horz) || x == n;
          }
        }
        return;
      }
      if pair != NULL {
        res := LeaveWithPair(horz, dir, pair, rank, bound);
        return;
      }
      res, m, op1 := LeaveAtTop(horz, rank, bound);
    }

    /**
     * The last case of `FinishHorizontal`: a horizontal with neither a
     * successor nor a pair adds its top to its fragment, if it has one
     * (`m` is the state then, `op1` what `AddOutPt` returned), and leaves
     * the AEL.
     */
    method LeaveAtTop(horz: int, ghost rank: seq<nat>, ghost bound: seq<int>)
      returns (res: Result<(), string>, ghost m: Snapshot, ghost op1: Result<int, string>)
      requires Valid() && horz in ael && BoundsOk(edges, ael, rank, bound) && edges[horz].NextInLML == NULL
      modifies this`edges, this`activeEdges, this`ael, this`outPts, this`polyOuts, this`rings, this`owner
      ensures Valid() && BoundsKept(old(edges), edges) && BoundsOk(edges, ael, rank, bound)
      ensures res.Success? ==> forall x :: x in ael <==> x in old(ael) && x != horz
      ensures FragmentPointAdded(env, horz, old(edges)[horz].Top, Snapshot(old(edges), old(outPts), old(polyOuts), old(rings), old(owner)), m, op1)
      ensures outPts == m.pts && polyOuts == m.recs
      ensures res.Success? <==> old(edges)[horz].OutIdx < 0 || op1.Success?
    {
      ghost var before := ael;
      m, op1 := Snapshot(edges, outPts, polyOuts, rings, owner), Failure("");
      if edges[horz].OutIdx >= 0 {
        var top := AddOutPt(horz, edges[horz].Top);
        op1, m := top, Snapshot(edges, outPts, polyOuts, rings, owner);
        BoundsRankedKept(old(edges), edges, rank, bound);
        if top.Failure? {
          return Failure(top.error), m, op1;
        }
      }
      DeleteFromAEL(horz);
      BoundsRankedKept(old(edges), edges, rank, bound);
      OnePerBoundFewer(before, ael, bound);
      return Success(()), m, op1;
    }

    /**
     * The next edge of an active horizontal's bound takes the horizontal's
     * place on the AEL (see `UpdateEdgeIntoAEL`), keeping the bound shape.
     */
    method ReplaceBySuccessor(horz: int, ghost rank: seq<nat>, ghost bound: seq<int>) returns (n: int)
      requires Valid() && horz in ael && BoundsOk(edges, ael, rank, bound) && edges[horz].NextInLML != NULL
      modifies this`edges, this`activeEdges, this`ael, this`scanbeam
      ensures Valid() && BoundsKept(old(edges), edges) && BoundsOk(edges, ael, rank, bound)
      ensures n == old(edges)[horz].NextInLML && 0 <= n < |edges| && n !in old(ael)
      ensures edges[n].OutIdx == old(edges)[horz].OutIdx && edges[n].Side == old(edges)[horz].Side
      ensures bound[n] == bound[horz] && rank[n] < rank[horz]
      ensures ael == old(ael)[IndexOf(old(ael), horz) := n]
      ensures forall x :: x in ael <==> (x in old(ael) && x != horz) || x == n
    {
      n := edges[horz].NextInLML;
      assert BoundStep(edges, rank, bound, horz);
      SuccessorNotActive(edges, ael, rank, bound, horz);
      ghost var before := ael;
      var updated := UpdateEdgeIntoAEL(horz);
      BoundsRankedKept(old(edges), edges, rank, bound);
      ReplacedMembers(before, IndexOf(before, horz), n);
      OnePerBoundReplaced(before, ael, bound, horz, n);
    }

    /**
     * The bottom of `ProcessHorizontal`'s outer loop, after a pass that did
     * not end at the maxima pair: a horizontal with a fragment that
     * contributes prepares its ghost joins (see `PrepareHorzJoins`); then,
     * when the bound's next edge is horizontal too, that edge takes the
     * horizontal's place on the AEL, adds its bottom to the fragment if it
     * has one, and the result is true.  Otherwise the result is false and
     * the AEL is as it was.
     */
    method AdvanceHorizontal(horz: int, isTop: bool, ghost rank: seq<nat>, ghost bound: seq<int>)
      returns (res: Result<bool, string>, ghost mid: seq<TEdge>, ghost added: Result<int, string>)
      requires Valid() && horz in ael && BoundsOk(edges, ael, rank, bound)
      modifies this`edges, this`activeEdges, this`ael, this`outPts, this`polyOuts, this`rings, this`owner, this`ghostJoins, this`scanbeam
      ensures Valid() && BoundsKept(old(edges), edges) && BoundsOk(edges, ael, rank, bound)
      ensures !isTop ==> ghostJoins == old(ghostJoins)
      ensures res == Success(false) ==>
        ael == old(ael) && edges == old(edges) && outPts == old(outPts) && polyOuts == old(polyOuts) &&
        (old(edges)[horz].NextInLML == NULL || !IsHorizontal(old(edges)[old(edges)[horz].NextInLML]))
      ensures res == Success(true) ==>
        old(edges)[horz].NextInLML != NULL && IsHorizontal(old(edges)[old(edges)[horz].NextInLML]) &&
        ael == old(ael)[IndexOf(old(ael), horz) := old(edges)[horz].NextInLML]
      ensures res == Success(true) ==>
        var n := old(edges)[horz].NextInLML;
        0 <= n < |mid| && mid[n].OutIdx == old(edges)[horz].OutIdx && mid[n].Bot == old(edges)[n].Bot &&
        FragmentPointAdded(env, n, old(edges)[n].Bot, Snapshot(mid, old(outPts), old(polyOuts), old(rings), old(owner)),
          Snapshot(edges, outPts, polyOuts, rings, owner), added) &&
        (old(edges)[horz].OutIdx >= 0 ==> added.Success?)
    {
      mid, added := edges, Failure("");
      if edges[horz].OutIdx >= 0 && edges[horz].WindDelta != 0 {
        var prepared := PrepareHorzJoins(horz, isTop);
        if prepared.Failure? {
          return Failure(prepared.error), mid, added;
        }
      }
      var n := edges[horz].NextInLML;
      assert EdgeLinksIn(edges[horz], |edges|);
      if n == NULL || !IsHorizontal(edges[n]) {
        return Success(false), mid, added;
      }
      var stepped;
      stepped, mid, added := StepToSuccessor(horz, rank, bound);
      res := if stepped.Success? then Success(true) else Failure(stepped.error);
    }

    /**
     * The advance of `AdvanceHorizontal`: the bound's next edge `n` takes the
     * horizontal's place on the AEL (`mid` is the arena then) and, when it
     * holds a fragment, adds its bottom to it (`added` is what `AddOutPt`
     * returned).
     */
    method StepToSuccessor(horz: int, ghost rank: seq<nat>, ghost bound: seq<int>)
      returns (res: Result<(), string>, ghost mid: seq<TEdge>, ghost added: Result<int, string>)
      requires Valid() && horz in ael && BoundsOk(edges, ael, rank, bound) && edges[horz].NextInLML != NULL
      modifies this`edges, this`activeEdges, this`ael, this`outPts, this`polyOuts, this`rings, this`owner, this`scanbeam
      ensures Valid() && BoundsKept(old(edges), edges) && BoundsOk(edges, ael, rank, bound)
      ensures ael == old(ael)[IndexOf(old(ael), horz) := old(edges)[horz].NextInLML]
      ensures var n := old(edges)[horz].NextInLML;
        0 <= n < |mid| && mid[n].OutIdx == old(edges)[horz].OutIdx && mid[n].Bot == old(edges)[n].Bot &&
        FragmentPointAdded(env, n, old(edges)[n].Bot, Snapshot(mid, old(outPts), old(polyOuts), old(rings), old(owner)),
          Snapshot(edges, outPts, polyOuts, rings, owner), added)
      ensures res.Success? <==> old(edges)[horz].OutIdx < 0 || added.Success?
    {
      added := Failure("");
      var n := ReplaceBySuccessor(horz, rank, bound);
      mid := edges;
      if edges[n].OutIdx >= 0 {
        var bot := AddOutPt(n, edges[n].Bot);
        added := bot;
        BoundsRankedKept(mid, edges, rank, bound);
        if bot.Failure? {
          return Failure(bot.error), mid, added;
        }
      }
      return Success(()), mid, added;
    }

    /**
     * The start of `ProcessHorizontal`: the last horizontal of the run that
     * starts at `horz` (see `FindLastHorz`) and, when the run ends at a
     * maximum, that maximum's pair (see `GetMaximaPair`).
     */
    method HorizontalRun(horz: int, ghost rank: seq<nat>, ghost bound: seq<int>) returns (last: int, pair: int)
      requires Valid() && horz in ael && BoundsOk(edges, ael, rank, bound)
      ensures last == LastHorz(edges, rank, bound, horz) && pair == HorzPair(edges, rank, bound, horz)
      ensures edges[last].NextInLML != NULL ==> pair == NULL
      ensures pair != NULL ==>
        0 <= pair < |edges| && pair != horz && pair != last &&
        edges[last].NextInLML == NULL && EndsAt(edges[pair], edges[last].Top)
    {
      last := FindLastHorz(horz, rank, bound);
      assert BoundStep(edges, rank, bound, last);
      pair := NULL;
      if edges[last].NextInLML == NULL {
        pair := GetMaximaPair(edges, last);
      }
    }

    /**
     * One turn of `ProcessHorizontal`'s outer loop on the horizontal `horz`
     * of the run that ends at `last`: take its direction, walk it across
     * the AEL (see `HorizontalPass`), and, unless the walk closed the run
     * at its maxima pair, step to the next horizontal of its bound (see
     * `AdvanceHorizontal`).
     */
    method HorizontalStep(horz: int, last: int, pair: int, isTop: bool, ghost rank: seq<nat>, ghost bound: seq<int>)
      returns (res: Result<HorzStep, string>)
      requires Valid() && horz in ael && BoundsOk(edges, ael, rank, bound)
      requires 0 <= last < |edges| && LastHorz(edges, rank, bound, horz) == last
      requires pair != NULL ==>
        0 <= pair < |edges| && pair != last && edges[last].NextInLML == NULL && EndsAt(edges[pair], edges[last].Top)
      modifies this`edges, this`activeEdges, this`ael, this`outPts, this`polyOuts, this`rings, this`owner, this`joins,
        this`ghostJoins, this`scanbeam
      ensures Valid() && BoundsKept(old(edges), edges) && BoundsOk(edges, ael, rank, bound)
      ensures ShapeOf(edges[last]) == ShapeOf(old(edges)[last])
      ensures pair != NULL ==> ShapeOf(edges[pair]) == ShapeOf(old(edges)[pair])
      ensures !isTop ==> ghostJoins == old(ghostJoins)
      ensures res == Success(RunClosed) ==>
        pair != NULL && horz == last && forall x :: x in ael <==> x in old(ael) && x != horz && x != pair
      ensures res == Success(RunStopped) ==>
        horz == last && horz in ael && forall x :: x in ael <==> x in old(ael)
      ensures res.Success? && res.value.RunAdvanced? ==>
        var n := res.value.next;
        n == old(edges)[horz].NextInLML && 0 <= n < |edges| && n !in old(ael) &&
        bound[n] == bound[horz] && rank[n] < rank[horz] && LastHorz(edges, rank, bound, n) == last &&
        forall x :: x in ael <==> (x in old(ael) && x != horz) || x == n
    {
      assert BoundStep(edges, rank, bound, horz);
      var d := GetHorzDirection(edges[horz]);
      var passed := HorizontalPass(horz, d.0, d.1, d.2, isTop, pair, horz == last, rank, bound);
      assert ShapeOf(old(edges)[last]) == ShapeOf(edges[last]);
      assert pair != NULL ==> ShapeOf(old(edges)[pair]) == ShapeOf(edges[pair]);
      if passed.Failure? {
        return Failure(passed.error);
      }
      if passed.value {
        return Success(RunClosed);
      }
      assert ShapeOf(old(edges)[horz]) == ShapeOf(edges[horz]);
      var n := edges[horz].NextInLML;
      ghost var mid := edges;
      ghost var before := ael;
      if n != NULL {
        SuccessorNotActive(edges, ael, rank, bound, horz);
      }
      var advanced;
      ghost var replaced, added;
      advanced, replaced, added := AdvanceHorizontal(horz, isTop, rank, bound);
      assert ShapeOf(mid[last]) == ShapeOf(edges[last]);
      assert pair != NULL ==> ShapeOf(mid[pair]) == ShapeOf(edges[pair]);
      if advanced.Failure? {
        return Failure(advanced.error);
      }
      if !advanced.value {
        return Success(RunStopped);
      }
      LastHorzStep(old(edges), rank, bound, horz);
      LastHorzKept(old(edges), edges, rank, bound, n);
      ReplacedMembers(before, IndexOf(before, horz), n);
      return Success(RunAdvanced(n));
    }

    /**
     * The outer loop of `ProcessHorizontal`: walk the horizontal `horz0`,
     * and each horizontal that follows it on its bound, across the AEL,
     * each next horizontal taking the previous one's place (see
     * `HorizontalStep`).  The result is true when the walk closed the run
     * at its maxima pair, and false when it stopped on the run's last
     * horizontal, which is then active in `horz0`'s place.
     */
    method WalkRun(horz0: int, last: int, pair: int, isTop: bool, ghost rank: seq<nat>, ghost bound: seq<int>)
      returns (res: Result<bool, string>)
      requires Valid() && horz0 in ael && BoundsOk(edges, ael, rank, bound)
      requires 0 <= last < |edges| && LastHorz(edges, rank, bound, horz0) == last
      requires pair != NULL ==>
        0 <= pair < |edges| && pair != last && edges[last].NextInLML == NULL && EndsAt(edges[pair], edges[last].Top)
      modifies this`edges, this`activeEdges, this`ael, this`outPts, this`polyOuts, this`rings, this`owner, this`joins,
        this`ghostJoins, this`scanbeam
      ensures Valid() && BoundsKept(old(edges), edges) && BoundsOk(edges, ael, rank, bound)
      ensures !isTop ==> ghostJoins == old(ghostJoins)
      ensures res == Success(true) ==> pair != NULL && forall x :: x in ael <==> x in old(ael) && x != horz0 && x != pair
      ensures res == Success(false) ==>
        last in ael && (last != horz0 ==> last !in old(ael)) &&
        forall x :: x in ael <==> (x in old(ael) && x != horz0) || x == last
    {
      var horz := horz0;
      while true
        invariant Valid() && horz in ael && BoundsKept(old(edges), edges) && BoundsOk(edges, ael, rank, bound)
        invariant 0 <= horz < |edges| && LastHorz(edges, rank, bound, horz) == last
        invariant ShapeOf(edges[last]) == ShapeOf(old(edges)[last])
        invariant pair != NULL ==> ShapeOf(edges[pair]) == ShapeOf(old(edges)[pair])
        invariant rank[horz] <= rank[horz0] && (horz != horz0 ==> horz !in old(ael))
        invariant forall x :: x in ael <==> (x in old(ael) && x != horz0) || x == horz
        invariant !isTop ==> ghostJoins == old(ghostJoins)
        decreases rank[horz]
      {
        var step := HorizontalStep(horz, last, pair, isTop, rank, bound);
        if step.Failure? {
          return Failure(step.error);
        }
        match step.value {
          case RunClosed =>
            return Success(true);
          case RunStopped =>
            return Success(false);
          case RunAdvanced(n) =>
            horz := n;
        }
      }
    }

    /**
     * `ProcessHorizontal(horzEdge, isTopOfScanbeam)`: find the run of
     * horizontals that starts at the edge and its maxima pair (see
     * `HorizontalRun`), walk the run across the AEL (see `WalkRun`) and,
     * unless that closed it at the pair, finish on its last horizontal (see
     * `FinishHorizontal`).  On success the AEL has lost the horizontal,
     * and at a maximum its pair, and has gained the edge after the run, if
     * any.  Ghost joins are only recorded at the top of a scanbeam.
     */
    method ProcessHorizontal(horz0: int, isTop: bool, ghost rank: seq<nat>, ghost bound: seq<int>) returns (res: Result<(), string>)
      requires Valid() && horz0 in ael && BoundsOk(edges, ael, rank, bound)
      modifies this`edges, this`activeEdges, this`ael, this`outPts, this`polyOuts, this`rings, this`owner, this`joins,
        this`ghostJoins, this`scanbeam
      ensures Valid() && BoundsKept(old(edges), edges) && BoundsOk(edges, ael, rank, bound)
      ensures !isTop ==> ghostJoins == old(ghostJoins)
      ensures res.Success? ==> forall x ::
        x in ael <==>
          (x in old(ael) && x != horz0 && x != HorzPair(old(edges), rank, bound, horz0)) ||
          (x == HorzSuccessor(old(edges), rank, bound, horz0) && x != NULL)
    {
      var last, pair := HorizontalRun(horz0, rank, bound);
      ghost var succ := edges[last].NextInLML;
      assert BoundStep(edges, rank, bound, last);
      var walked := WalkRun(horz0, last, pair, isTop, rank, bound);
      if walked.Failure? {
        return Failure(walked.error);
      }
      if walked.value {
        return Success(());
      }
      assert ShapeOf(old(edges)[last]) == ShapeOf(edges[last]);
      assert pair != NULL ==> ShapeOf(old(edges)[pair]) == ShapeOf(edges[pair]);
      ghost var before := ael;
      var d := GetHorzDirection(edges[last]);
      ghost var m, op1;
      res, m, op1 := FinishHorizontal(last, d.0, pair, rank, bound);
      if res.Success? {
        RunMembers(old(ael), before, ael, horz0, last, pair, succ);
      }
    }

    /**
     * `ProcessHorizontals(isTopOfScanbeam)`: take the SEL's edges off it one
     * at a time from its head and process each (see `ProcessHorizontal`),
     * until the SEL is empty.  An edge that an earlier one has already
     * taken off the AEL is passed over.
     */
    method ProcessHorizontals(isTop: bool, ghost rank: seq<nat>, ghost bound: seq<int>)
      returns (res: Result<(), string>, ghost visits: seq<HorzVisit>)
      requires Valid() && BoundsOk(edges, ael, rank, bound)
      modifies this`edges, this`activeEdges, this`ael, this`sortedEdges, this`sel, this`outPts, this`polyOuts,
        this`rings, this`owner, this`joins, this`ghostJoins, this`scanbeam
      ensures Valid() && BoundsKept(old(edges), edges) && BoundsOk(edges, ael, rank, bound)
      ensures !isTop ==> ghostJoins == old(ghostJoins)
      ensures res.Success? ==> sortedEdges == NULL && sel == []
      ensures res.Success? ==> Visited(old(sel), old(edges), visits)
      ensures res.Success? ==> forall x :: x in ael <==> x in HorzFold((set y | y in old(ael)), rank, bound, visits)
    {
      visits := [];
      var horz := sortedEdges;
      while horz != NULL
        invariant Valid() && BoundsKept(old(edges), edges) && BoundsOk(edges, ael, rank, bound) && horz == sortedEdges
        invariant !isTop ==> ghostJoins == old(ghostJoins)
        invariant 0 <= |visits| <= |old(sel)| && sel == old(sel)[|visits|..] && Visited(old(sel)[..|visits|], old(edges), visits)
        invariant forall x :: x in ael <==> x in HorzFold((set y | y in old(ael)), rank, bound, visits)
        decreases |sel|
      {
        ghost var members := HorzFold((set y | y in old(ael)), rank, bound, visits);
        assert forall x :: x in (set y | y in ael) <==> x in members;
        assert (set y | y in ael) == members;
        ghost var before := edges;
        var visited;
        ghost var v;
        visited, v := VisitHorizontal(isTop, rank, bound);
        BoundsKeptTrans(old(edges), before, edges);
        BoundsKeptTrans(old(edges), before, v.arena);
        assert (visits + [v])[..|visits|] == visits;
        VisitedExtended(old(sel), old(edges), visits, v);
        if visited.Failure? {
          return visited, visits + [v];
        }
        visits := visits + [v];
        horz := sortedEdges;
      }
      assert old(sel)[..|visits|] == old(sel);
      return Success(()), visits;
    }

    /** `horz = m_SortedEdges; DeleteFromSEL(horz)`: the SEL's head leaves the SEL. */
    method TakeSelHead(ghost rank: seq<nat>, ghost bound: seq<int>) returns (horz: int)
      requires Valid() && BoundsOk(edges, ael, rank, bound) && sortedEdges != NULL
      modifies this`edges, this`sortedEdges, this`sel
      ensures Valid() && BoundsKept(old(edges), edges) && BoundsOk(edges, ael, rank, bound)
      ensures old(sel) != [] && horz == old(sel)[0] && sel == old(sel)[1..]
    {
      horz := sortedEdges;
      DroppedHead(sel);
      DeleteFromSEL(horz);
      BoundsRankedKept(old(edges), edges, rank, bound);
    }

    /**
     * One turn of `ProcessHorizontals`: the SEL's head leaves the SEL and,
     * when it is still in the AEL, is processed (see `ProcessHorizontal`);
     * `v` records it with the arena its run is processed in, and on success
     * the AEL members are those `RunOutcome` gives.
     */
    method VisitHorizontal(isTop: bool, ghost rank: seq<nat>, ghost bound: seq<int>) returns (res: Result<(), string>, ghost v: HorzVisit)
      requires Valid() && BoundsOk(edges, ael, rank, bound) && sortedEdges != NULL
      modifies this`edges, this`activeEdges, this`ael, this`sortedEdges, this`sel, this`outPts, this`polyOuts,
        this`rings, this`owner, this`joins, this`ghostJoins, this`scanbeam
      ensures Valid() && BoundsKept(old(edges), edges) && BoundsOk(edges, ael, rank, bound)
      ensures !isTop ==> ghostJoins == old(ghostJoins)
      ensures old(sel) != [] && v.h == old(sel)[0] && sel == old(sel)[1..] && BoundsKept(old(edges), v.arena)
      ensures res.Success? ==> forall x :: x in ael <==> x in RunOutcome((set y | y in old(ael)), rank, bound, v)
    {
      var horz := TakeSelHead(rank, bound);
      v := HorzVisit(horz, edges);
      var active := InAel(horz);
      if active {
        RunOutcomeMembers((set y | y in old(ael)), rank, bound, v);
        res := ProcessHorizontal(horz, isTop, rank, bound);
        BoundsKeptTrans(old(edges), v.arena, edges);
      } else {
        res := Success(());
      }
    }

    // -------------------------------------------------------------------
    // Execute
    // -------------------------------------------------------------------

    /**
     * `BuildResult`: append every record's exported polygon that is not
     * null to `polygons`, in record order.
     */
    method BuildResult(polygons: seq<seq<IntPoint>>) returns (polygons2: seq<seq<IntPoint>>)
      ensures polygons2 == polygons + Exported(env.exportRec, outPts, polyOuts)
    {
      polygons2 := polygons;
      var i := 0;
      while i < |polyOuts|
        invariant 0 <= i <= |polyOuts| && polygons2 == polygons + Exported(env.exportRec, outPts, polyOuts[..i])
      {
        var polygon := env.exportRec(outPts, polyOuts[i]);
        if polygon.Some? {
          polygons2 := polygons2 + [polygon.value];
        }
        assert polyOuts[..i + 1][..i] == polyOuts[..i];
        i := i + 1;
      }
      assert polyOuts[..i] == polyOuts;
    }

    /**
     * `DisposeAllPolyPts`: every output record is disposed of and the
     * record list emptied, so no ring is left.
     */
    method DisposeAllPolyPts()
      requires Valid()
      modifies this`polyOuts, this`rings
      ensures Valid() && polyOuts == [] && rings == []
    {
      polyOuts, rings := [], [];
    }

    /**
     * `ExecuteInternal`: the sweep itself is not part of this model; its
     * outcome is `sweep` and the output it leaves (points, records, their
     * rings and owners) is the output part of `swept`, which becomes the
     * engine's.  Its `finally` empties the join lists on every path.
     */
    method ExecuteInternal(sweep: Result<bool, string>, swept: Snapshot) returns (res: Result<bool, string>)
      requires Valid() && OutputOk(swept.pts, swept.recs, swept.rings, swept.owner)
      modifies this`joins, this`ghostJoins, this`outPts, this`polyOuts, this`rings, this`owner
      ensures Valid() && res == sweep && joins == [] && ghostJoins == []
      ensures outPts == swept.pts && polyOuts == swept.recs && rings == swept.rings && owner == swept.owner
    {
      res := sweep;
      outPts, polyOuts, rings, owner := swept.pts, swept.recs, swept.rings, swept.owner;
      joins, ghostJoins := [], [];
    }

    /** The start of `Execute`: the lock is taken and the clip and fill types recorded. */
    method Lock(ct: ClipType, subjFill: PolyFillType, clipFill: PolyFillType)
      modifies this`executeLocked, this`clipType, this`subjFillType, this`clipFillType
      ensures executeLocked && clipType == ct && subjFillType == subjFill && clipFillType == clipFill
    {
      executeLocked := true;
      subjFillType, clipFillType, clipType := subjFill, clipFill, ct;
    }

    /**
     * The `try`/`finally` of `Execute`: the sweep runs (its outcome being
     * `sweep`, the output it builds `swept`) and, when it succeeds, the
     * exports of the records it built are appended to `solution`; then, on every path, every output record is disposed of
     * and the lock released.
     */
    method RunLocked(solution: seq<seq<IntPoint>>, sweep: Result<bool, string>, swept: Snapshot)
      returns (res: Result<bool, string>, solution2: seq<seq<IntPoint>>)
      requires Valid() && OutputOk(swept.pts, swept.recs, swept.rings, swept.owner)
      modifies this`executeLocked, this`joins, this`ghostJoins, this`outPts, this`polyOuts, this`rings, this`owner
      ensures Valid() && res == sweep && !executeLocked && polyOuts == [] && joins == [] && ghostJoins == []
      ensures solution2 == if sweep == Success(true) then solution + Exported(env.exportRec, swept.pts, swept.recs) else solution
    {
      res := ExecuteInternal(sweep, swept);
      solution2 := solution;
      if res == Success(true) {
        solution2 := BuildResult(solution);
      }
      DisposeAllPolyPts();
      executeLocked := false;
    }

    /**
     * `Execute(ct, solution, subjFill, clipFill)`, with the sweep's outcome
     * `sweep` and the output it builds `swept`.  A locked engine answers
     * false and changes nothing, `solution` included.  With open paths it
     * fails before anything changes.  Otherwise `solution` is emptied, the
     * lock taken and the clip and fill types recorded (`Lock`), and the run
     * goes on as `RunLocked` says: the answer is the sweep's, `solution`
     * ends holding the exports of the records the sweep built when it
     * answered true, no
     * output record is left and the lock is released.
     */
    method Execute(ct: ClipType, solution: seq<seq<IntPoint>>, subjFill: PolyFillType, clipFill: PolyFillType,
      sweep: Result<bool, string>, swept: Snapshot)
      returns (res: Result<bool, string>, solution2: seq<seq<IntPoint>>)
      requires Valid() && OutputOk(swept.pts, swept.recs, swept.rings, swept.owner)
      modifies this`executeLocked, this`clipType, this`subjFillType, this`clipFillType, this`joins, this`ghostJoins,
        this`outPts, this`polyOuts, this`rings, this`owner
      ensures Valid()
      ensures old(executeLocked) ==> res == Success(false) && solution2 == solution && unchanged(this)
      ensures !old(executeLocked) && hasOpenPaths ==> res.Failure? && solution2 == solution && unchanged(this)
      ensures !old(executeLocked) && !hasOpenPaths ==>
        res == sweep && !executeLocked && polyOuts == [] && joins == [] && ghostJoins == [] &&
        clipType == ct && subjFillType == subjFill && clipFillType == clipFill &&
        solution2 == (if sweep == Success(true) then Exported(env.exportRec, swept.pts, swept.recs) else [])
    {
      if executeLocked {
        return Success(false), solution;
      }
      if hasOpenPaths {
        return Failure("Error: PolyTree struct is need for open path clipping."), solution;
      }
      Lock(ct, subjFill, clipFill);
      res, solution2 := RunLocked([], sweep, swept);
    }
  }

  /**
   * Where `InsertEdgeIntoAEL` puts `edge` in the list `order`: at the front
   * of an empty list, or when no start edge is given and it inserts before
   * the head; otherwise after the start edge (the head when none is given)
   * and after every following edge it does not insert before, so that it
   * inserts before the edge that then follows it, if any.
   */
  ghost predicate InsertionSpot(edges: seq<TEdge>, edge: int, startEdge: int, order: seq<int>, geo: Geometry, q: int)
    requires 0 <= edge < |edges| && forall i :: 0 <= i < |order| ==> 0 <= order[i] < |edges|
    requires startEdge == NULL || startEdge in order
  {
    if order == [] || (startEdge == NULL && InsertsBefore(edges[edge], edges[order[0]], geo)) then q == 0
    else
      var s := if startEdge == NULL then 0 else IndexOf(order, startEdge);
      s < q <= |order| &&
      (forall j :: s < j < q ==> !InsertsBefore(edges[edge], edges[order[j]], geo)) &&
      (q < |order| ==> InsertsBefore(edges[edge], edges[order[q]], geo))
  }

  /**
   * `r` is `edges` after `UpdateEdgeIntoAEL` replaced the active edge `e` by
   * its successor `n`: `n` takes over `e`'s output index, side, winding
   * fields and AEL neighbours and starts at its bottom; `e`'s neighbours
   * point at `n`; nothing else changes.
   */
  ghost predicate Replaced(edges: seq<TEdge>, e: int, r: seq<TEdge>)
    requires 0 <= e < |edges|
  {
    var n, olde := edges[e].NextInLML, edges[e];
    0 <= n < |edges| && |r| == |edges| &&
    r[n] == edges[n].(Curr := edges[n].Bot, OutIdx := olde.OutIdx, Side := olde.Side,
      WindDelta := olde.WindDelta, WindCnt := olde.WindCnt, WindCnt2 := olde.WindCnt2,
      PrevInAEL := olde.PrevInAEL, NextInAEL := olde.NextInAEL) &&
    (forall x :: 0 <= x < |edges| && x != n ==>
      r[x] == if x == olde.PrevInAEL then edges[x].(NextInAEL := n)
              else if x == olde.NextInAEL then edges[x].(PrevInAEL := n)
              else edges[x])
  }

  /** The arena `UpdateEdgeIntoAEL` leaves keeps every link in range. */
  lemma ReplacedInRange(es: seq<TEdge>, r: seq<TEdge>, order: seq<int>, p: int, n: int)
    requires LinksInRange(es) && Chain(es, AEL, order) && 0 <= p < |order| && 0 <= n < |es| && n !in order
    requires |r| == |es| && r[n].NextInAEL == At(order, p + 1) && r[n].PrevInAEL == At(order, p - 1)
    requires LinksOf(r[n]).0 == LinksOf(es[n]).0 && LinksOf(r[n]).1 == LinksOf(es[n]).1 && LinksOf(r[n]).2 == LinksOf(es[n]).2
    requires r[n].NextInSEL == es[n].NextInSEL && r[n].PrevInSEL == es[n].PrevInSEL
    requires forall x :: 0 <= x < |es| && x != n ==>
      r[x] == if x == At(order, p - 1) then es[x].(NextInAEL := n)
              else if x == At(order, p + 1) then es[x].(PrevInAEL := n)
              else es[x]
    ensures LinksInRange(r)
  {
    var before, after := At(order, p - 1), At(order, p + 1);
    assert ValidLink(before, |r|) && ValidLink(after, |r|) && ValidLink(n, |r|);
    forall x | 0 <= x < |r|
      ensures EdgeLinksIn(r[x], |r|)
    {
      assert EdgeLinksIn(es[x], |es|);
      if x == n {
        assert LinksOf(r[n]).0 == LinksOf(es[n]).0 && LinksOf(r[n]).1 == LinksOf(es[n]).1 && LinksOf(r[n]).2 == LinksOf(es[n]).2;
      } else if x == before {
        assert r[x] == es[x].(NextInAEL := n);
      } else if x == after {
        assert r[x] == es[x].(PrevInAEL := n);
      } else {
        assert r[x] == es[x];
      }
    }
  }

  /**
   * The arena `UpdateEdgeIntoAEL` leaves: `n` threaded in the place of the
   * member at position `p`, which keeps a well-formed AEL with `n` there and
   * touches no SEL link.
   */
  lemma {:induction false} ReplacedFacts(es: seq<TEdge>, r: seq<TEdge>, order: seq<int>, p: int, n: int)
    requires LinksInRange(es) && Chain(es, AEL, order) && 0 <= p < |order| && 0 <= n < |es| && n !in order
    requires |r| == |es| && r[n].NextInAEL == At(order, p + 1) && r[n].PrevInAEL == At(order, p - 1)
    requires LinksOf(r[n]).0 == LinksOf(es[n]).0 && LinksOf(r[n]).1 == LinksOf(es[n]).1 && LinksOf(r[n]).2 == LinksOf(es[n]).2
    requires r[n].NextInSEL == es[n].NextInSEL && r[n].PrevInSEL == es[n].PrevInSEL
    requires forall x :: 0 <= x < |es| && x != n ==>
      r[x] == if x == At(order, p - 1) then es[x].(NextInAEL := n)
              else if x == At(order, p + 1) then es[x].(PrevInAEL := n)
              else es[x]
    ensures LinksInRange(r) && ListLinksSame(es, r, SEL) && Chain(r, AEL, order[p := n])
  {
    ReplacedInRange(es, r, order, p, n);
    if p > 0 && p + 1 < |order| {
      assert order[p - 1] != order[p + 1];
    }
    assert ListLinkedIn(es, r, AEL, n, At(order, p - 1), At(order, p + 1));
    ReplacedChain(es, r, AEL, order, p, n);
  }

  /** The writes of `AddEdgeToSEL`: the edge goes in front of the SEL's old head. */
  method PushFront(edges: seq<TEdge>, edge: int, activeEdges: int, ghost ael: seq<int>, head: int, ghost order: seq<int>)
    returns (r: seq<TEdge>)
    requires ListsOk(edges, activeEdges, ael, head, order) && 0 <= edge < |edges| && edge !in order
    ensures ListsOk(r, activeEdges, ael, edge, [edge] + order) && OnlyLinksChanged(edges, r, SEL)
  {
    if head == NULL {
      r := SetPrev(edges, SEL, edge, NULL);
      r := SetNext(r, SEL, edge, NULL);
    } else {
      r := SetNext(edges, SEL, edge, head);
      r := SetPrev(r, SEL, edge, NULL);
      r := SetPrev(r, SEL, head, edge);
    }
    assert r == LinkIn(edges, SEL, edge, At(order, -1), At(order, 0));
    ThreadedIn(edges, SEL, order, edge, 0, ael);
    assert order[..0] + [edge] + order[0..] == [edge] + order;
  }

  /**
   * The walk of `InsertEdgeIntoAEL` from the member at position `s`: move
   * on while the next edge exists and `edge` does not insert before it.
   * `cur` is the edge it stops at, position `q - 1`.
   */
  method FindInsertionPoint(edges: seq<TEdge>, edge: int, start: int, geo: Geometry, ghost order: seq<int>, ghost s: int)
    returns (cur: int, ghost q: int)
    requires AelSteps(edges, order) && 0 <= s < |order| && start == order[s] && 0 <= edge < |edges|
    ensures s < q <= |order| && cur == order[q - 1] && edges[cur].NextInAEL == At(order, q)
    ensures forall j :: s < j < q ==> !InsertsBefore(edges[edge], edges[order[j]], geo)
    ensures q < |order| ==> InsertsBefore(edges[edge], edges[order[q]], geo)
  {
    cur := start;
    ghost var p := s;
    while edges[cur].NextInAEL != NULL && !InsertsBefore(edges[edge], edges[edges[cur].NextInAEL], geo)
      invariant s <= p < |order| && cur == order[p] && edges[cur].NextInAEL == At(order, p + 1)
      invariant forall j :: s < j <= p ==> !InsertsBefore(edges[edge], edges[order[j]], geo)
      decreases |order| - p
    {
      assert edges[cur].NextInAEL == order[p + 1];
      cur := edges[cur].NextInAEL;
      p := p + 1;
    }
    q := p + 1;
  }

  /** The forward AEL links of a chain: each member's `NextInAEL` is the next member, or null at the end. */
  predicate AelSteps(edges: seq<TEdge>, order: seq<int>)
  {
    (forall i :: 0 <= i < |order| ==> 0 <= order[i] < |edges|) &&
    (forall i {:trigger edges[order[i]]} :: 0 <= i < |order| ==> edges[order[i]].NextInAEL == At(order, i + 1))
  }

  lemma ChainSteps(edges: seq<TEdge>, order: seq<int>)
    requires Chain(edges, AEL, order)
    ensures AelSteps(edges, order)
  {
    forall i | 0 <= i < |order|
      ensures edges[order[i]].NextInAEL == At(order, i + 1)
    {
      assert NextIn(edges[order[i]], AEL) == At(order, i + 1);
    }
  }

  /**
   * The writes of `InsertEdgeIntoAEL` when the edge becomes the AEL's head,
   * in front of `head` (null when the list is empty): the same links as
   * threading it with no predecessor.
   */
  function LinkAsHead(edges: seq<TEdge>, edge: int, head: int): (r: seq<TEdge>)
    requires 0 <= edge < |edges| && ValidLink(head, |edges|) && edge != head
    ensures r == LinkIn(edges, AEL, edge, NULL, head)
  {
    var a := SetPrev(edges, AEL, edge, NULL);
    var b := SetNext(a, AEL, edge, head);
    if head != NULL then SetPrev(b, AEL, head, edge) else b
  }

  /**
   * The writes of `InsertEdgeIntoAEL` on an arena and a head (see the class
   * method): `q` is where the edge lands.
   */
  method InsertInList(edges: seq<TEdge>, edge: int, startEdge: int, head: int, geo: Geometry, ghost order: seq<int>, sortedEdges: int, ghost sel: seq<int>)
    returns (r: seq<TEdge>, newHead: int, ghost q: int)
    requires ListsOk(edges, head, order, sortedEdges, sel) && 0 <= edge < |edges| && edge !in order
    requires startEdge == NULL || startEdge in order
    ensures 0 <= q <= |order| && OnlyLinksChanged(edges, r, AEL)
    ensures ListsOk(r, newHead, order[..q] + [edge] + order[q..], sortedEdges, sel)
    ensures InsertionSpot(edges, edge, startEdge, order, geo, q)
  {
    if head == NULL {
      r := LinkAsHead(edges, edge, NULL);
      q, newHead := 0, edge;
    } else if startEdge == NULL && InsertsBefore(edges[edge], edges[head], geo) {
      r := LinkAsHead(edges, edge, head);
      q, newHead := 0, edge;
    } else {
      var cur;
      ChainSteps(edges, order);
      cur, q := FindInsertionPoint(edges, edge, if startEdge == NULL then head else startEdge, geo, order,
        if startEdge == NULL then 0 else IndexOf(order, startEdge));
      r := LinkIn(edges, AEL, edge, cur, edges[cur].NextInAEL);
      newHead := head;
    }
    assert r == LinkIn(edges, AEL, edge, At(order, q - 1), At(order, q));
    ThreadedIn(edges, AEL, order, edge, q, sel);
  }

  /** The writes of `CopyAELToSEL`: every active edge's SEL links become copies of its AEL links. */
  method CopyAelLinks(edges: seq<TEdge>, head: int, ghost order: seq<int>) returns (r: seq<TEdge>)
    requires LinksInRange(edges) && Linked(edges, AEL, head, order)
    ensures ListsOk(r, head, order, head, order) && OnlyLinksChanged(edges, r, SEL)
    ensures forall x :: 0 <= x < |edges| && x !in order ==> r[x] == edges[x]
  {
    r := edges;
    var edge := head;
    ghost var p := 0;
    while edge != NULL
      invariant 0 <= p <= |order| && edge == At(order, p)
      invariant LinksInRange(r) && OnlyLinksChanged(edges, r, SEL) && Chain(r, AEL, order)
      invariant forall i {:trigger r[order[i]]} :: 0 <= i < p ==>
        NextIn(r[order[i]], SEL) == At(order, i + 1) && PrevIn(r[order[i]], SEL) == At(order, i - 1)
      invariant forall x :: 0 <= x < |r| && x !in order ==> r[x] == edges[x]
      decreases |order| - p
    {
      assert NextIn(r[order[p]], AEL) == At(order, p + 1) && PrevIn(r[order[p]], AEL) == At(order, p - 1);
      ghost var before := r;
      r, edge := CopyLinksToSel(r, edge);
      OnlyLinksChangedTrans(edges, before, r, SEL);
      OtherListKept(before, r, SEL, AEL);
      ChainKept(before, r, AEL, order);
      p := p + 1;
    }
  }

  /** The writes of `UpdateEdgeIntoAEL` once the successor `n` is known. */
  method ReplaceInAel(edges: seq<TEdge>, e: int, head: int, ghost order: seq<int>, sortedEdges: int, ghost sel: seq<int>)
    returns (r: seq<TEdge>, newHead: int)
    requires ListsOk(edges, head, order, sortedEdges, sel) && 0 <= e < |edges| && e in order
    requires edges[e].NextInLML != NULL && edges[e].NextInLML !in order
    ensures ListsOk(r, newHead, order[IndexOf(order, e) := edges[e].NextInLML], sortedEdges, sel)
    ensures Replaced(edges, e, r)
  {
    var n := edges[e].NextInLML;
    ghost var p := IndexOf(order, e);
    assert NextIn(edges[order[p]], AEL) == At(order, p + 1) && PrevIn(edges[order[p]], AEL) == At(order, p - 1);
    assert EdgeLinksIn(edges[e], |edges|);
    var aelPrev, aelNext := edges[e].PrevInAEL, edges[e].NextInAEL;
    r := edges[n := edges[n].(OutIdx := edges[e].OutIdx)];
    newHead := head;
    if aelPrev != NULL {
      r := r[aelPrev := r[aelPrev].(NextInAEL := n)];
    } else {
      newHead := n;
    }
    if aelNext != NULL {
      r := r[aelNext := r[aelNext].(PrevInAEL := n)];
    }
    r := r[n := r[n].(Side := edges[e].Side, WindDelta := edges[e].WindDelta, WindCnt := edges[e].WindCnt, WindCnt2 := edges[e].WindCnt2)];
    r := r[n := r[n].(Curr := r[n].Bot)];
    r := r[n := r[n].(PrevInAEL := aelPrev, NextInAEL := aelNext)];
    ReplacedFacts(edges, r, order, p, n);
    ChainKept(edges, r, SEL, sel);
  }

  /** Changing edge fields other than references keeps both lists. */
  lemma ListsKept(edges: seq<TEdge>, r: seq<TEdge>, activeEdges: int, ael: seq<int>, sortedEdges: int, sel: seq<int>)
    requires ListsOk(edges, activeEdges, ael, sortedEdges, sel) && AllLinksSame(edges, r)
    ensures ListsOk(r, activeEdges, ael, sortedEdges, sel)
  {
    AllLinksSameKeeps(edges, r);
    ChainKept(edges, r, AEL, ael);
    ChainKept(edges, r, SEL, sel);
  }

  /**
   * What `AddOutPt(e, pt)` leaves, given the state before it (`edges`,
   * `pts`, `recs`, `rings`, `owner`) and after it (the primed names):
   * - an edge without a fragment (`OutIdx < 0`) gets a new record in the
   *   next slot, open exactly when the edge has no winding delta, whose ring
   *   is one new node carrying `pt`; a closed record takes the hole state
   *   `setHoleState` gives it; the edge's `OutIdx` becomes the new slot;
   * - a fragment index past the records, or a record without points, fails
   *   and changes nothing;
   * - otherwise the edge is untouched and, when `pt` already sits at the end
   *   being extended, that end's node is the result; else `Extended` says
   *   what is added.
   */
  ghost predicate OutPtAdded(env: Collaborators, edges: seq<TEdge>, pts: seq<OutPt>, recs: seq<OutRec>, rings: seq<seq<int>>, owner: seq<int>,
    e: int, pt: IntPoint,
    edges2: seq<TEdge>, pts2: seq<OutPt>, recs2: seq<OutRec>, rings2: seq<seq<int>>, owner2: seq<int>, res: Result<int, string>)
    requires OutputOk(pts, recs, rings, owner) && 0 <= e < |edges|
  {
    var s := edges[e].OutIdx;
    match res
    case Failure(_) =>
      0 <= s && (s >= |recs| || recs[s].Pts == NULL) &&
      edges2 == edges && pts2 == pts && recs2 == recs && rings2 == rings && owner2 == owner
    case Success(p) =>
      if s < 0 then
        var n := |pts|;
        var slot := |recs|;
        var created := NewOutRec(slot, edges[e].WindDelta == 0, n);
        var hole := if created.IsOpen then (false, NULL) else env.holeState(edges, e, recs + [created]);
        p == n && pts2 == pts + [OutPt(slot, pt, n, n)] &&
        recs2 == recs + [created.(IsHole := hole.0, FirstLeft := hole.1)] &&
        rings2 == rings + [[n]] && owner2 == owner + [slot] &&
        edges2 == edges[e := edges[e].(OutIdx := slot)]
      else
        s < |recs| && recs[s].Pts != NULL &&
        assert RecRing(pts, recs[s], rings[s]);
        var toFront := edges[e].Side == Left;
        edges2 == edges &&
        if pts[RingEnd(rings[s], toFront)].Pt == pt then
          p == RingEnd(rings[s], toFront) && pts2 == pts && recs2 == recs && rings2 == rings && owner2 == owner
        else
          Extended(pts, recs, rings, owner, s, pt, toFront, pts2, recs2, p, rings2, owner2)
  }

  /** The writes of `AddOutPt` on the engine's state taken as values. */
  method AddPoint(env: Collaborators, edges: seq<TEdge>, e: int, pt: IntPoint,
      pts: seq<OutPt>, recs: seq<OutRec>, ghost rings: seq<seq<int>>, ghost owner: seq<int>,
      activeEdges: int, ghost ael: seq<int>, sortedEdges: int, ghost sel: seq<int>)
    returns (res: Result<int, string>, edges2: seq<TEdge>, pts2: seq<OutPt>, recs2: seq<OutRec>, ghost rings2: seq<seq<int>>, ghost owner2: seq<int>)
    requires ListsOk(edges, activeEdges, ael, sortedEdges, sel) && OutputOk(pts, recs, rings, owner) && 0 <= e < |edges|
    ensures ListsOk(edges2, activeEdges, ael, sortedEdges, sel) && OutputOk(pts2, recs2, rings2, owner2) && |edges2| == |edges|
    ensures OutPtAdded(env, edges, pts, recs, rings, owner, e, pt, edges2, pts2, recs2, rings2, owner2, res)
  {
    var s := edges[e].OutIdx;
    if s < 0 {
      var n;
      pts2, recs2, n := NewRing(pts, recs, rings, owner, pt, edges[e].WindDelta == 0);
      var slot := |recs|;
      rings2, owner2 := rings + [[n]], owner + [slot];
      if !recs2[slot].IsOpen {
        var hole := env.holeState(edges, e, recs2);
        ghost var before := recs2;
        recs2 := recs2[slot := recs2[slot].(IsHole := hole.0, FirstLeft := hole.1)];
        ShapeKept(pts2, before, recs2, rings2, owner2);
      }
      edges2 := edges[e := edges[e].(OutIdx := slot)];
      ListsKept(edges, edges2, activeEdges, ael, sortedEdges, sel);
      return Success(n), edges2, pts2, recs2, rings2, owner2;
    }
    if s >= |recs| || recs[s].Pts == NULL {
      return Failure("AddOutPt: the edge's output record has no points"), edges, pts, recs, rings, owner;
    }
    var n;
    pts2, recs2, n, rings2, owner2 := AddToRing(pts, recs, rings, owner, s, pt, edges[e].Side == Left);
    return Success(n), edges, pts2, recs2, rings2, owner2;
  }

  /**
   * Whatever `AddOutPt` does when it succeeds, the node it returns carries
   * `pt` and sits at the end of the edge's fragment that the edge's side
   * extends: the front (`Pts`) for a left-side edge, the back
   * (`Pts.Prev`) otherwise; a new fragment's single node is both.
   */
  lemma {:induction false} AddedPointAtEnd(env: Collaborators, edges: seq<TEdge>, pts: seq<OutPt>, recs: seq<OutRec>, rings: seq<seq<int>>, owner: seq<int>,
    e: int, pt: IntPoint,
    edges2: seq<TEdge>, pts2: seq<OutPt>, recs2: seq<OutRec>, rings2: seq<seq<int>>, owner2: seq<int>, res: Result<int, string>)
    requires OutputOk(pts, recs, rings, owner) && 0 <= e < |edges| && OutputOk(pts2, recs2, rings2, owner2)
    requires OutPtAdded(env, edges, pts, recs, rings, owner, e, pt, edges2, pts2, recs2, rings2, owner2, res)
    requires res.Success?
    ensures |edges2| == |edges| && 0 <= edges2[e].OutIdx < |recs2| && rings2[edges2[e].OutIdx] != []
    ensures 0 <= res.value < |pts2| && pts2[res.value].Pt == pt
    ensures res.value == RingEnd(rings2[edges2[e].OutIdx], edges[e].Side == Left)
  {
    var s := edges[e].OutIdx;
    if s >= 0 {
      assert RecRing(pts, recs[s], rings[s]);
      var toFront := edges[e].Side == Left;
      if pts[RingEnd(rings[s], toFront)].Pt != pt {
        assert res.value == RingEnd(rings2[s], toFront);
      }
    }
  }

  /**
   * `AddOutPt(e, pt)` when `add` holds (see `OutPtAdded`; `res` is what it
   * returned); otherwise the state stays as it was.
   */
  ghost predicate PointAddedWhen(env: Collaborators, add: bool, e: int, pt: IntPoint, before: Snapshot, after: Snapshot, res: Result<int, string>)
  {
    0 <= e < |before.edges| && OutputOk(before.pts, before.recs, before.rings, before.owner) &&
    match add
    case true =>
      OutPtAdded(env, before.edges, before.pts, before.recs, before.rings, before.owner, e, pt,
        after.edges, after.pts, after.recs, after.rings, after.owner, res)
    case false => after == before
  }

  /** `if (e.OutIdx >= 0) AddOutPt(e, pt)`: only an edge holding a fragment adds the point. */
  ghost predicate FragmentPointAdded(env: Collaborators, e: int, pt: IntPoint, before: Snapshot, after: Snapshot, res: Result<int, string>)
  {
    0 <= e < |before.edges| && PointAddedWhen(env, before.edges[e].OutIdx >= 0, e, pt, before, after, res)
  }

  /**
   * The join at the bottom of the edge `n` that has just replaced a
   * horizontal whose top went in as `op1`: with no neighbour for it (see
   * `JoinNeighbour`) nothing changes; otherwise the neighbour adds `n`'s
   * bottom to its fragment (`added` is what `AddOutPt` returned) and, unless
   * that fails, `op1` is joined with that node, guided by `n`'s top.
   */
  ghost predicate BottomJoined(env: Collaborators, n: int, op1: int, before: Snapshot, after: Snapshot,
    joins: seq<Join>, joins2: seq<Join>, added: Result<int, string>, res: Result<(), string>)
  {
    0 <= n < |before.edges| && EdgeLinksIn(before.edges[n], |before.edges|) &&
    OutputOk(before.pts, before.recs, before.rings, before.owner) &&
    var nb := JoinNeighbour(before.edges, n);
    match nb == NULL
    case true => res.Success? && after == before && joins2 == joins
    case false =>
      OutPtAdded(env, before.edges, before.pts, before.recs, before.rings, before.owner, nb, before.edges[n].Bot,
        after.edges, after.pts, after.recs, after.rings, after.owner, added) &&
      match added
      case Failure(_) => res.Failure? && joins2 == joins
      case Success(op2) => res.Success? && joins2 == joins + [Join(op1, op2, before.edges[n].Top)]
  }

  // ---------------------------------------------------------------------
  // Duplicating a point
  // ---------------------------------------------------------------------

  /** Where `DupOutPt` puts the copy of the node at ring position `p`: after it, or before it (at the back for the first node). */
  function DupSlot(ring: seq<int>, p: int, insertAfter: bool): (i: int)
    requires 0 <= p < |ring|
    ensures 0 < i <= |ring|
  {
    if insertAfter then p + 1 else if p == 0 then |ring| else p
  }

  /**
   * What `DupOutPt` did: node `n`, new at the end of the arena, copies
   * `op`'s point and record index and sits next to `op` in record `s`'s
   * ring (its `Next` for `insertAfter`, else its `Prev`); no other node's
   * point or index changes.
   */
  ghost predicate Duplicated(pts: seq<OutPt>, rings: seq<seq<int>>, owner: seq<int>, op: int, insertAfter: bool, s: int,
    r: seq<OutPt>, n: int, rings2: seq<seq<int>>, owner2: seq<int>)
    requires 0 <= s < |rings| && op in rings[s] && forall i :: 0 <= i < |rings[s]| ==> 0 <= rings[s][i] < |pts|
  {
    var ring := rings[s];
    var i := DupSlot(ring, IndexOf(ring, op), insertAfter);
    var ring2 := ring[..i] + [n] + ring[i..];
    n == |pts| && |r| == n + 1 && r[n].Pt == pts[op].Pt && r[n].Idx == pts[op].Idx &&
    (forall x :: 0 <= x < |pts| ==> r[x].Pt == pts[x].Pt && r[x].Idx == pts[x].Idx) &&
    rings2 == rings[s := ring2] && owner2 == owner + [s] &&
    (if insertAfter then r[op].Next == n && r[n].Prev == op else r[op].Prev == n && r[n].Next == op)
  }

  /** After `DupOutPt` the fragment reads the same path with `op`'s point repeated at the copy's slot. */
  lemma DuplicatedPath(pts: seq<OutPt>, rings: seq<seq<int>>, owner: seq<int>, op: int, insertAfter: bool, s: int,
    r: seq<OutPt>, n: int, rings2: seq<seq<int>>, owner2: seq<int>)
    requires 0 <= s < |rings| && op in rings[s] && forall i :: 0 <= i < |rings[s]| ==> 0 <= rings[s][i] < |pts|
    requires Duplicated(pts, rings, owner, op, insertAfter, s, r, n, rings2, owner2)
    ensures var i := DupSlot(rings[s], IndexOf(rings[s], op), insertAfter);
      (forall j :: 0 <= j < |rings2[s]| ==> 0 <= rings2[s][j] < |r|) &&
      Path(r, rings2[s]) == Path(pts, rings[s])[..i] + [pts[op].Pt] + Path(pts, rings[s])[i..]
  {
    ThreadedPath(pts, r, rings[s], n, DupSlot(rings[s], IndexOf(rings[s], op), insertAfter), pts[op].Pt);
  }

  /** The writes of `DupOutPt` on the output taken as values. */
  method DupPoint(pts: seq<OutPt>, recs: seq<OutRec>, ghost rings: seq<seq<int>>, ghost owner: seq<int>, op: int, insertAfter: bool, ghost s: int)
    returns (r: seq<OutPt>, n: int, ghost rings2: seq<seq<int>>, ghost owner2: seq<int>)
    requires OutputOk(pts, recs, rings, owner) && 0 <= s < |recs| && op in rings[s]
    ensures OutputOk(r, recs, rings2, owner2)
    ensures (forall i :: 0 <= i < |rings[s]| ==> 0 <= rings[s][i] < |pts|) &&
      Duplicated(pts, rings, owner, op, insertAfter, s, r, n, rings2, owner2)
  {
    ghost var ring := rings[s];
    assert RecRing(pts, recs[s], ring);
    ghost var p := IndexOf(ring, op);
    ghost var i := DupSlot(ring, p, insertAfter);
    var before, after := if insertAfter then op else pts[op].Prev, if insertAfter then pts[op].Next else op;
    assert before == BeforeSlot(ring, i) && after == AfterSlot(ring, i);
    r, n := ThreadNewPt(pts, recs, rings, owner, s, i, before, after, pts[op].Pt, pts[op].Idx);
    ghost var ring2 := ring[..i] + [n] + ring[i..];
    assert ring2[0] == ring[0];
    assert recs[s := recs[s].(Pts := ring2[0])] == recs;
    rings2, owner2 := rings[s := ring2], owner + [s];
    assert RecRing(r, recs[s], ring2);
    SlotNeighbours(r, ring, p, n, insertAfter);
  }

  /** In the ring with the copy threaded in at `DupSlot`, the copy is the original's neighbour on the chosen side. */
  lemma SlotNeighbours(r: seq<OutPt>, ring: seq<int>, p: int, n: int, insertAfter: bool)
    requires 0 <= p < |ring|
    requires var i := DupSlot(ring, p, insertAfter); PtRing(r, ring[..i] + [n] + ring[i..])
    ensures 0 <= ring[p] < |r| && 0 <= n < |r|
    ensures if insertAfter then r[ring[p]].Next == n && r[n].Prev == ring[p] else r[ring[p]].Prev == n && r[n].Next == ring[p]
  {
    var i := DupSlot(ring, p, insertAfter);
    var ring2 := ring[..i] + [n] + ring[i..];
    assert ring2[i] == n;
    assert ring2[if p < i then p else p + 1] == ring[p];
    if insertAfter {
      assert ring2[i - 1] == ring[p];
    } else if i < |ring| {
      assert ring2[i + 1] == ring[p];
    } else {
      assert ring2[0] == ring[p];
    }
  }

  // ---------------------------------------------------------------------
  // Merging fragments
  // ---------------------------------------------------------------------

  /** The AEL position of the first edge whose `OutIdx` is `v`; `|order|` when there is none. */
  function FirstWith(edges: seq<TEdge>, order: seq<int>, v: int): (q: int)
    requires forall i :: 0 <= i < |order| ==> 0 <= order[i] < |edges|
    ensures 0 <= q <= |order| && (q < |order| ==> edges[order[q]].OutIdx == v)
    ensures forall j :: 0 <= j < q ==> edges[order[j]].OutIdx != v
  {
    if order == [] then 0
    else if edges[order[0]].OutIdx == v then 0
    else 1 + FirstWith(edges, order[1..], v)
  }

  /**
   * The edges after the first AEL edge on fragment `from`, if any, moved to
   * fragment `to` on side `side`: only that edge changes, in those two
   * fields alone.
   */
  function Repointed(edges: seq<TEdge>, order: seq<int>, from: int, to: int, side: EdgeSide): (r: seq<TEdge>)
    requires forall i :: 0 <= i < |order| ==> 0 <= order[i] < |edges|
    ensures AllLinksSame(edges, r)
    ensures forall x :: 0 <= x < |edges| && r[x] != edges[x] ==>
      x in order && edges[x].OutIdx == from && r[x] == edges[x].(OutIdx := to, Side := side)
    ensures forall x, y :: 0 <= x < |edges| && 0 <= y < |edges| && r[x] != edges[x] && r[y] != edges[y] ==> x == y
    ensures forall i :: 0 <= i < |order| && edges[order[i]].OutIdx == from && (forall j :: 0 <= j < i ==> edges[order[j]].OutIdx != from) ==>
      r[order[i]] == edges[order[i]].(OutIdx := to, Side := side)
  {
    var q := FirstWith(edges, order, from);
    if q < |order| then edges[order[q] := edges[order[q]].(OutIdx := to, Side := side)] else edges
  }

  /**
   * The AEL walk at the end of `AppendPolygon`: the first active edge still
   * on the absorbed fragment `from` takes the kept fragment `to` and side
   * `side`, and the walk stops there.
   */
  method RepointFirst(edges: seq<TEdge>, head: int, ghost order: seq<int>, from: int, to: int, side: EdgeSide) returns (r: seq<TEdge>)
    requires LinksInRange(edges) && Linked(edges, AEL, head, order)
    ensures r == Repointed(edges, order, from, to, side)
  {
    var e := head;
    ghost var i := 0;
    while e != NULL
      invariant 0 <= i <= |order| && e == At(order, i)
      invariant forall j :: 0 <= j < i ==> edges[order[j]].OutIdx != from
      decreases |order| - i
    {
      if edges[e].OutIdx == from {
        return edges[e := edges[e].(OutIdx := to, Side := side)];
      }
      e := edges[e].NextInAEL;
      i := i + 1;
    }
    return edges;
  }

  /**
   * What `AppendPolygon` did.  When both edges' fragment indexes name
   * records with points:
   * - record `s2`'s ring is joined onto record `s1`'s as `Joined` orders
   *   them by the edges' sides, only links changing (so, by
   *   `AppendedPath`, the kept fragment's path is the two paths joined the
   *   same way); `s2`'s nodes now belong to `s1`;
   * - the records change as `AppendedRecs` says, the hole state coming
   *   from `s2` exactly when the `holeFromSecond` choice falls on it;
   * - both edges lose their fragment, and then the first AEL edge still on
   *   `s2` moves to `s1`, on `e1`'s side.
   * Otherwise nothing changes and the call fails.
   */
  ghost predicate Appended(env: Collaborators, edges: seq<TEdge>, pts: seq<OutPt>, recs: seq<OutRec>, rings: seq<seq<int>>, owner: seq<int>,
    ael: seq<int>, e1: int, e2: int,
    edges2: seq<TEdge>, pts2: seq<OutPt>, recs2: seq<OutRec>, rings2: seq<seq<int>>, owner2: seq<int>, res: Result<(), string>)
    requires OutputOk(pts, recs, rings, owner) && 0 <= e1 < |edges| && 0 <= e2 < |edges|
    requires forall i :: 0 <= i < |ael| ==> 0 <= ael[i] < |edges|
  {
    var s1, s2 := edges[e1].OutIdx, edges[e2].OutIdx;
    var missing := !(0 <= s1 < s2 < |recs|) || recs[s1].Pts == NULL || recs[s2].Pts == NULL;
    match res
    case Failure(_) => missing && edges2 == edges && pts2 == pts && recs2 == recs && rings2 == rings && owner2 == owner
    case Success(_) =>
      !missing &&
      assert RecRing(pts, recs[s1], rings[s1]) && RecRing(pts, recs[s2], rings[s2]);
      var left1, left2 := edges[e1].Side == Left, edges[e2].Side == Left;
      var joined := Joined(rings[s1], rings[s2], left1, left2);
      var cleared := edges[e1 := edges[e1].(OutIdx := NULL)][e2 := edges[e2].(OutIdx := NULL)];
      SameLabels(pts, pts2) &&
      rings2 == rings[s1 := joined][s2 := []] && owner2 == Reowned(owner, s2, s1) &&
      recs2 == AppendedRecs(recs, s1, s2, joined[0], env.holeFromSecond(pts, recs[s1], recs[s2])) &&
      edges2 == Repointed(cleared, ael, s2, s1, if left1 then Left else Right)
  }

  /**
   * After `AppendPolygon` the kept fragment traces the absorbed fragment's
   * path and its own, in the order and directions `Joined` gives: no point
   * is lost, added or reordered within either fragment.
   */
  lemma AppendedPath(env: Collaborators, edges: seq<TEdge>, pts: seq<OutPt>, recs: seq<OutRec>, rings: seq<seq<int>>, owner: seq<int>,
    ael: seq<int>, e1: int, e2: int,
    edges2: seq<TEdge>, pts2: seq<OutPt>, recs2: seq<OutRec>, rings2: seq<seq<int>>, owner2: seq<int>, res: Result<(), string>)
    requires OutputOk(pts, recs, rings, owner) && 0 <= e1 < |edges| && 0 <= e2 < |edges|
    requires forall i :: 0 <= i < |ael| ==> 0 <= ael[i] < |edges|
    requires Appended(env, edges, pts, recs, rings, owner, ael, e1, e2, edges2, pts2, recs2, rings2, owner2, res) && res.Success?
    ensures var s1, s2 := edges[e1].OutIdx, edges[e2].OutIdx;
      0 <= s1 < s2 < |recs| && |rings2| == |recs| &&
      (forall i :: 0 <= i < |rings[s1]| ==> 0 <= rings[s1][i] < |pts|) &&
      (forall i :: 0 <= i < |rings[s2]| ==> 0 <= rings[s2][i] < |pts|) &&
      (forall i :: 0 <= i < |rings2[s1]| ==> 0 <= rings2[s1][i] < |pts2|) &&
      Path(pts2, rings2[s1]) == Joined(Path(pts, rings[s1]), Path(pts, rings[s2]), edges[e1].Side == Left, edges[e2].Side == Left)
  {
    var s1, s2 := edges[e1].OutIdx, edges[e2].OutIdx;
    assert RecRing(pts, recs[s1], rings[s1]) && RecRing(pts, recs[s2], rings[s2]);
    var left1, left2 := edges[e1].Side == Left, edges[e2].Side == Left;
    JoinedPath(pts, rings[s1], rings[s2], left1, left2);
    SameLabelsPath(pts, pts2, Joined(rings[s1], rings[s2], left1, left2));
  }

  /**
   * What a successful `AppendPolygon` leaves: both edges without a
   * fragment; the absorbed record `s2` without points or ring, its `Idx`
   * the kept record's and its `FirstLeft` the kept record; the kept ring
   * holding exactly the nodes of both rings; and at most one other edge
   * changed, moved from `s2` to `s1`.
   */
  lemma AppendedEffects(env: Collaborators, edges: seq<TEdge>, pts: seq<OutPt>, recs: seq<OutRec>, rings: seq<seq<int>>, owner: seq<int>,
    ael: seq<int>, e1: int, e2: int,
    edges2: seq<TEdge>, pts2: seq<OutPt>, recs2: seq<OutRec>, rings2: seq<seq<int>>, owner2: seq<int>, res: Result<(), string>)
    requires OutputOk(pts, recs, rings, owner) && 0 <= e1 < |edges| && 0 <= e2 < |edges|
    requires forall i :: 0 <= i < |ael| ==> 0 <= ael[i] < |edges|
    requires Appended(env, edges, pts, recs, rings, owner, ael, e1, e2, edges2, pts2, recs2, rings2, owner2, res) && res.Success?
    ensures var s1, s2 := edges[e1].OutIdx, edges[e2].OutIdx;
      0 <= s1 < s2 < |recs| && |recs2| == |recs| && |rings2| == |rings| && |edges2| == |edges| &&
      edges2[e1].OutIdx == NULL && edges2[e2].OutIdx == NULL &&
      recs2[s2].Pts == NULL && recs2[s2].Idx == recs[s1].Idx && recs2[s2].FirstLeft == s1 && rings2[s2] == [] &&
      (forall x :: x in rings2[s1] <==> x in rings[s1] || x in rings[s2]) &&
      (forall x :: 0 <= x < |edges| && x != e1 && x != e2 && edges2[x] != edges[x] ==>
        edges[x].OutIdx == s2 && edges2[x].OutIdx == s1) &&
      (forall x, y ::
        (0 <= x < |edges| && 0 <= y < |edges| && edges2[x] != edges[x] && edges2[y] != edges[y] &&
         x != e1 && x != e2 && y != e1 && y != e2) ==> x == y)
  {
    var s1, s2 := edges[e1].OutIdx, edges[e2].OutIdx;
    assert RecRing(pts, recs[s1], rings[s1]) && RecRing(pts, recs[s2], rings[s2]);
    var left1, left2 := edges[e1].Side == Left, edges[e2].Side == Left;
    JoinedMembers(rings[s1], rings[s2], left1, left2);
    var cleared := edges[e1 := edges[e1].(OutIdx := NULL)][e2 := edges[e2].(OutIdx := NULL)];
    assert forall x :: 0 <= x < |edges| && x != e1 && x != e2 ==> cleared[x] == edges[x];
  }

  /** The writes of `AppendPolygon` on the engine's state taken as values. */
  method Append(env: Collaborators, edges: seq<TEdge>, e1: int, e2: int,
      pts: seq<OutPt>, recs: seq<OutRec>, ghost rings: seq<seq<int>>, ghost owner: seq<int>,
      activeEdges: int, ghost ael: seq<int>, sortedEdges: int, ghost sel: seq<int>)
    returns (res: Result<(), string>, edges2: seq<TEdge>, pts2: seq<OutPt>, recs2: seq<OutRec>, ghost rings2: seq<seq<int>>, ghost owner2: seq<int>)
    requires ListsOk(edges, activeEdges, ael, sortedEdges, sel) && OutputOk(pts, recs, rings, owner)
    requires 0 <= e1 < |edges| && 0 <= e2 < |edges| && edges[e1].OutIdx < edges[e2].OutIdx
    ensures ListsOk(edges2, activeEdges, ael, sortedEdges, sel) && OutputOk(pts2, recs2, rings2, owner2)
    ensures Appended(env, edges, pts, recs, rings, owner, ael, e1, e2, edges2, pts2, recs2, rings2, owner2, res)
  {
    var s1, s2 := edges[e1].OutIdx, edges[e2].OutIdx;
    if s1 < 0 || s2 >= |recs| || recs[s1].Pts == NULL || recs[s2].Pts == NULL {
      return Failure("AppendPolygon: a fragment has no points"), edges, pts, recs, rings, owner;
    }
    var holeFromSecond := env.holeFromSecond(pts, recs[s1], recs[s2]);
    var left1, left2 := edges[e1].Side == Left, edges[e2].Side == Left;
    pts2, recs2 := SpliceRings(pts, recs, rings, owner, s1, s2, left1, left2, holeFromSecond);
    rings2 := rings[s1 := Joined(rings[s1], rings[s2], left1, left2)][s2 := []];
    owner2 := Reowned(owner, s2, s1);
    var cleared := edges[e1 := edges[e1].(OutIdx := NULL)][e2 := edges[e2].(OutIdx := NULL)];
    ListsKept(edges, cleared, activeEdges, ael, sortedEdges, sel);
    edges2 := RepointFirst(cleared, activeEdges, ael, s2, s1, if left1 then Left else Right);
    ListsKept(cleared, edges2, activeEdges, ael, sortedEdges, sel);
    res := Success(());
  }

  /**
   * The points `AddLocalMaxPoly` adds: `AddOutPt(e1, pt)` takes the state
   * from `before` to `m1`; unless that fails, `AddOutPt(e2, pt)` takes it
   * on to `m2` when `e2` is open; otherwise `m2` is `m1` and `r2` is `r1`.
   */
  ghost predicate MaxPointsAdded(env: Collaborators, e1: int, e2: int, pt: IntPoint,
    before: Snapshot, m1: Snapshot, r1: Result<int, string>, m2: Snapshot, r2: Result<int, string>)
    requires OutputOk(before.pts, before.recs, before.rings, before.owner)
    requires 0 <= e1 < |before.edges| && 0 <= e2 < |before.edges|
  {
    match r1
    case Failure(_) =>
      OutPtAdded(env, before.edges, before.pts, before.recs, before.rings, before.owner, e1, pt,
        m1.edges, m1.pts, m1.recs, m1.rings, m1.owner, r1) &&
      m2 == m1 && r2 == r1
    case Success(_) =>
      OutPtAdded(env, before.edges, before.pts, before.recs, before.rings, before.owner, e1, pt,
        m1.edges, m1.pts, m1.recs, m1.rings, m1.owner, r1) &&
      |m1.edges| == |before.edges| && OutputOk(m1.pts, m1.recs, m1.rings, m1.owner) &&
      if m1.edges[e2].WindDelta == 0 then
        OutPtAdded(env, m1.edges, m1.pts, m1.recs, m1.rings, m1.owner, e2, pt, m2.edges, m2.pts, m2.recs, m2.rings, m2.owner, r2)
      else m2 == m1 && r2 == r1
  }

  /**
   * The last step of `AddLocalMaxPoly` from state `m`: when both edges are
   * on the same fragment, both lose it and nothing else changes; otherwise
   * the fragment with the higher index is appended onto the one with the
   * lower (`Appended`, the lower-index edge first).
   */
  ghost predicate FragmentsClosed(env: Collaborators, ael: seq<int>, e1: int, e2: int, m: Snapshot, after: Snapshot, res: Result<(), string>)
    requires OutputOk(m.pts, m.recs, m.rings, m.owner)
    requires 0 <= e1 < |m.edges| && 0 <= e2 < |m.edges| && forall i :: 0 <= i < |ael| ==> 0 <= ael[i] < |m.edges|
  {
    var s1, s2 := m.edges[e1].OutIdx, m.edges[e2].OutIdx;
    if s1 == s2 then
      res.Success? && after == m.(edges := m.edges[e1 := m.edges[e1].(OutIdx := NULL)][e2 := m.edges[e2].(OutIdx := NULL)])
    else if s1 < s2 then
      Appended(env, m.edges, m.pts, m.recs, m.rings, m.owner, ael, e1, e2, after.edges, after.pts, after.recs, after.rings, after.owner, res)
    else
      Appended(env, m.edges, m.pts, m.recs, m.rings, m.owner, ael, e2, e1, after.edges, after.pts, after.recs, after.rings, after.owner, res)
  }

  /**
   * What `AddLocalMaxPoly` did: the points went in (`MaxPointsAdded`), and
   * then, unless adding one failed, the fragments were closed
   * (`FragmentsClosed`).  A failing step ends the operation with the state
   * it left.
   */
  ghost predicate LocalMaxClosed(env: Collaborators, ael: seq<int>, e1: int, e2: int, pt: IntPoint,
    before: Snapshot, m1: Snapshot, r1: Result<int, string>, m2: Snapshot, r2: Result<int, string>, after: Snapshot, res: Result<(), string>)
    requires OutputOk(before.pts, before.recs, before.rings, before.owner)
    requires 0 <= e1 < |before.edges| && 0 <= e2 < |before.edges| && forall i :: 0 <= i < |ael| ==> 0 <= ael[i] < |before.edges|
  {
    MaxPointsAdded(env, e1, e2, pt, before, m1, r1, m2, r2) &&
    match r2
    case Failure(_) => res.Failure? && after == m2
    case Success(_) =>
      |m2.edges| == |before.edges| && OutputOk(m2.pts, m2.recs, m2.rings, m2.owner) &&
      FragmentsClosed(env, ael, e1, e2, m2, after, res)
  }

  /** The writes of `AddLocalMaxPoly` on the engine's state taken as values. */
  method LocalMax(env: Collaborators, edges: seq<TEdge>, e1: int, e2: int, pt: IntPoint,
      pts: seq<OutPt>, recs: seq<OutRec>, ghost rings: seq<seq<int>>, ghost owner: seq<int>,
      activeEdges: int, ghost ael: seq<int>, sortedEdges: int, ghost sel: seq<int>)
    returns (res: Result<(), string>, edges2: seq<TEdge>, pts2: seq<OutPt>, recs2: seq<OutRec>, ghost rings2: seq<seq<int>>, ghost owner2: seq<int>,
      ghost m1: Snapshot, ghost r1: Result<int, string>, ghost m2: Snapshot, ghost r2: Result<int, string>)
    requires ListsOk(edges, activeEdges, ael, sortedEdges, sel) && OutputOk(pts, recs, rings, owner)
    requires 0 <= e1 < |edges| && 0 <= e2 < |edges|
    ensures ListsOk(edges2, activeEdges, ael, sortedEdges, sel) && OutputOk(pts2, recs2, rings2, owner2) && |edges2| == |edges|
    ensures LocalMaxClosed(env, ael, e1, e2, pt, Snapshot(edges, pts, recs, rings, owner), m1, r1, m2, r2,
      Snapshot(edges2, pts2, recs2, rings2, owner2), res)
  {
    var added;
    added, r1, m1, edges2, pts2, recs2, rings2, owner2 := AddMaxPoints(env, edges, e1, e2, pt, pts, recs, rings, owner, activeEdges, ael, sortedEdges, sel);
    r2, m2 := added, Snapshot(edges2, pts2, recs2, rings2, owner2);
    if added.Failure? {
      return Failure(added.error), edges2, pts2, recs2, rings2, owner2, m1, r1, m2, r2;
    }
    res, edges2, pts2, recs2, rings2, owner2 := CloseFragments(env, edges2, e1, e2, pts2, recs2, rings2, owner2, activeEdges, ael, sortedEdges, sel);
  }

  /** The points `AddLocalMaxPoly` adds, on the state taken as values; `r2` is the last `AddOutPt` result. */
  method AddMaxPoints(env: Collaborators, edges: seq<TEdge>, e1: int, e2: int, pt: IntPoint,
      pts: seq<OutPt>, recs: seq<OutRec>, ghost rings: seq<seq<int>>, ghost owner: seq<int>,
      activeEdges: int, ghost ael: seq<int>, sortedEdges: int, ghost sel: seq<int>)
    returns (r2: Result<int, string>, ghost r1: Result<int, string>, ghost m1: Snapshot,
      edges2: seq<TEdge>, pts2: seq<OutPt>, recs2: seq<OutRec>, ghost rings2: seq<seq<int>>, ghost owner2: seq<int>)
    requires ListsOk(edges, activeEdges, ael, sortedEdges, sel) && OutputOk(pts, recs, rings, owner)
    requires 0 <= e1 < |edges| && 0 <= e2 < |edges|
    ensures ListsOk(edges2, activeEdges, ael, sortedEdges, sel) && OutputOk(pts2, recs2, rings2, owner2) && |edges2| == |edges|
    ensures MaxPointsAdded(env, e1, e2, pt, Snapshot(edges, pts, recs, rings, owner), m1, r1, Snapshot(edges2, pts2, recs2, rings2, owner2), r2)
  {
    r2, edges2, pts2, recs2, rings2, owner2 := AddPoint(env, edges, e1, pt, pts, recs, rings, owner, activeEdges, ael, sortedEdges, sel);
    r1, m1 := r2, Snapshot(edges2, pts2, recs2, rings2, owner2);
    if r2.Success? && edges2[e2].WindDelta == 0 {
      r2, edges2, pts2, recs2, rings2, owner2 := AddPoint(env, edges2, e2, pt, pts2, recs2, rings2, owner2, activeEdges, ael, sortedEdges, sel);
    }
  }

  /** The last step of `AddLocalMaxPoly` on the state taken as values. */
  method CloseFragments(env: Collaborators, edges: seq<TEdge>, e1: int, e2: int,
      pts: seq<OutPt>, recs: seq<OutRec>, ghost rings: seq<seq<int>>, ghost owner: seq<int>,
      activeEdges: int, ghost ael: seq<int>, sortedEdges: int, ghost sel: seq<int>)
    returns (res: Result<(), string>, edges2: seq<TEdge>, pts2: seq<OutPt>, recs2: seq<OutRec>, ghost rings2: seq<seq<int>>, ghost owner2: seq<int>)
    requires ListsOk(edges, activeEdges, ael, sortedEdges, sel) && OutputOk(pts, recs, rings, owner)
    requires 0 <= e1 < |edges| && 0 <= e2 < |edges|
    ensures ListsOk(edges2, activeEdges, ael, sortedEdges, sel) && OutputOk(pts2, recs2, rings2, owner2) && |edges2| == |edges|
    ensures FragmentsClosed(env, ael, e1, e2, Snapshot(edges, pts, recs, rings, owner), Snapshot(edges2, pts2, recs2, rings2, owner2), res)
  {
    var s1, s2 := edges[e1].OutIdx, edges[e2].OutIdx;
    if s1 == s2 {
      var cleared := edges[e1 := edges[e1].(OutIdx := NULL)][e2 := edges[e2].(OutIdx := NULL)];
      ListsKept(edges, cleared, activeEdges, ael, sortedEdges, sel);
      return Success(()), cleared, pts, recs, rings, owner;
    }
    var lo, hi := if s1 < s2 then e1 else e2, if s1 < s2 then e2 else e1;
    res, edges2, pts2, recs2, rings2, owner2 := Append(env, edges, lo, hi, pts, recs, rings, owner, activeEdges, ael, sortedEdges, sel);
  }

  /**
   * After a successful `AddLocalMaxPoly` neither edge has a fragment; when
   * they shared one, the output is as the points left it; otherwise the
   * fragment with the higher index is absorbed into the one with the lower.
   */
  lemma {:induction false} LocalMaxMerged(env: Collaborators, ael: seq<int>, e1: int, e2: int, m: Snapshot, after: Snapshot, res: Result<(), string>)
    requires OutputOk(m.pts, m.recs, m.rings, m.owner)
    requires 0 <= e1 < |m.edges| && 0 <= e2 < |m.edges| && forall i :: 0 <= i < |ael| ==> 0 <= ael[i] < |m.edges|
    requires FragmentsClosed(env, ael, e1, e2, m, after, res) && res.Success?
    ensures |after.edges| == |m.edges| && after.edges[e1].OutIdx == NULL && after.edges[e2].OutIdx == NULL
    ensures m.edges[e1].OutIdx == m.edges[e2].OutIdx ==> after.pts == m.pts && after.recs == m.recs && after.rings == m.rings
    ensures var s1, s2 := m.edges[e1].OutIdx, m.edges[e2].OutIdx;
      var lo, hi := Min(s1, s2), Max(s1, s2);
      s1 != s2 ==>
        0 <= lo < hi < |m.recs| && |after.recs| == |m.recs| && |after.rings| == |m.rings| &&
        after.recs[hi].Pts == NULL && after.recs[hi].Idx == m.recs[lo].Idx && after.recs[hi].FirstLeft == lo &&
        after.rings[hi] == [] && forall x :: x in after.rings[lo] <==> x in m.rings[lo] || x in m.rings[hi]
  {
    var s1, s2 := m.edges[e1].OutIdx, m.edges[e2].OutIdx;
    if s1 < s2 {
      AppendedEffects(env, m.edges, m.pts, m.recs, m.rings, m.owner, ael, e1, e2, after.edges, after.pts, after.recs, after.rings, after.owner, res);
    } else if s2 < s1 {
      AppendedEffects(env, m.edges, m.pts, m.recs, m.rings, m.owner, ael, e2, e1, after.edges, after.pts, after.recs, after.rings, after.owner, res);
    }
  }

  // ---------------------------------------------------------------------
  // Starting fragments at local minima
  // ---------------------------------------------------------------------

  /** The edge of a local-minimum pair that leads its fragment: `e1` when `e2` is horizontal or `e1` has the greater `Dx`, else `e2`. */
  function MinLead(edges: seq<TEdge>, e1: int, e2: int): (lead: int)
    requires 0 <= e1 < |edges| && 0 <= e2 < |edges|
    ensures lead == e1 <==> IsHorizontal(edges[e2]) || SlopeGreater(edges[e1].Dx, edges[e2].Dx) || e1 == e2
  {
    if IsHorizontal(edges[e2]) || SlopeGreater(edges[e1].Dx, edges[e2].Dx) then e1 else e2
  }

  /**
   * The pair after `AddLocalMinPoly` has given the lead its fragment: the
   * other edge takes the lead's fragment index, and the lead is on the left
   * side and the other edge on the right (written `e1` first, as the
   * source does).  Nothing else changes.
   */
  function MinPaired(edges: seq<TEdge>, e1: int, e2: int, lead: int): (r: seq<TEdge>)
    requires 0 <= e1 < |edges| && 0 <= e2 < |edges| && (lead == e1 || lead == e2)
    ensures AllLinksSame(edges, r)
    ensures r[e1].OutIdx == edges[lead].OutIdx && r[e2].OutIdx == edges[lead].OutIdx
    ensures e1 != e2 ==> r[lead].Side == Left && r[if lead == e1 then e2 else e1].Side == Right
    ensures forall x :: 0 <= x < |edges| && x != e1 && x != e2 ==> r[x] == edges[x]
    ensures forall x :: 0 <= x < |edges| ==> r[x] == edges[x].(OutIdx := r[x].OutIdx, Side := r[x].Side)
  {
    var other := if lead == e1 then e2 else e1;
    var w := edges[other := edges[other].(OutIdx := edges[lead].OutIdx)];
    var w2 := w[e1 := w[e1].(Side := if lead == e1 then Left else Right)];
    w2[e2 := w2[e2].(Side := if lead == e1 then Right else Left)]
  }

  /** The edge `AddLocalMinPoly` may join with: the lead's AEL predecessor, skipping the other edge of the pair. */
  function MinPrev(edges: seq<TEdge>, lead: int, other: int): int
    requires 0 <= lead < |edges| && 0 <= other < |edges|
  {
    if edges[lead].PrevInAEL == other then edges[other].PrevInAEL else edges[lead].PrevInAEL
  }

  /**
   * The join test of `AddLocalMinPoly`: `prevE` exists, has a fragment,
   * crosses the scanline of `pt` at the same X as `e`, has the same slope,
   * and both edges are closed.
   */
  predicate JoinsAtMin(geo: Geometry, edges: seq<TEdge>, e: int, prevE: int, pt: IntPoint)
    requires 0 <= e < |edges| && ValidLink(prevE, |edges|)
  {
    prevE != NULL && edges[prevE].OutIdx >= 0 &&
    TopX(edges[prevE], pt.y, geo) == TopX(edges[e], pt.y, geo) &&
    SlopesEqual(edges[e], edges[prevE]) && edges[e].WindDelta != 0 && edges[prevE].WindDelta != 0
  }

  /**
   * The first half of `AddLocalMinPoly`: `AddOutPt(lead, pt)` took the state
   * from `before` to `m0`; unless it failed, `m` is `m0` with the pair
   * written as `MinPaired` says.
   */
  ghost predicate MinStarted(env: Collaborators, e1: int, e2: int, pt: IntPoint,
    before: Snapshot, m0: Snapshot, r1: Result<int, string>, m: Snapshot)
    requires OutputOk(before.pts, before.recs, before.rings, before.owner)
    requires 0 <= e1 < |before.edges| && 0 <= e2 < |before.edges|
  {
    match r1
    case Failure(_) =>
      OutPtAdded(env, before.edges, before.pts, before.recs, before.rings, before.owner, MinLead(before.edges, e1, e2), pt,
        m0.edges, m0.pts, m0.recs, m0.rings, m0.owner, r1) &&
      m == m0
    case Success(_) =>
      var lead := MinLead(before.edges, e1, e2);
      OutPtAdded(env, before.edges, before.pts, before.recs, before.rings, before.owner, lead, pt,
        m0.edges, m0.pts, m0.recs, m0.rings, m0.owner, r1) &&
      |m0.edges| == |before.edges| && OutputOk(m0.pts, m0.recs, m0.rings, m0.owner) &&
      m == m0.(edges := MinPaired(m0.edges, e1, e2, lead))
  }

  /**
   * After the first half of `AddLocalMinPoly` succeeds on two distinct
   * edges, both are on the lead's fragment, the lead on the left and the
   * other edge on the right, and the returned node carries `pt` at the end
   * of that fragment the lead's former side extends.
   */
  lemma {:induction false} MinStartedShared(env: Collaborators, e1: int, e2: int, pt: IntPoint,
    before: Snapshot, m0: Snapshot, r1: Result<int, string>, m: Snapshot)
    requires OutputOk(before.pts, before.recs, before.rings, before.owner)
    requires 0 <= e1 < |before.edges| && 0 <= e2 < |before.edges| && e1 != e2
    requires MinStarted(env, e1, e2, pt, before, m0, r1, m) && r1.Success?
    ensures var lead := MinLead(before.edges, e1, e2);
      var other := if lead == e1 then e2 else e1;
      |m.edges| == |before.edges| && m.edges[e1].OutIdx == m.edges[e2].OutIdx &&
      0 <= m.edges[lead].OutIdx < |m.recs| && |m.rings| == |m.recs| && m.rings[m.edges[lead].OutIdx] != [] &&
      m.edges[lead].Side == Left && m.edges[other].Side == Right &&
      0 <= r1.value < |m.pts| && m.pts[r1.value].Pt == pt &&
      r1.value == RingEnd(m.rings[m.edges[lead].OutIdx], before.edges[lead].Side == Left)
  {
    var lead := MinLead(before.edges, e1, e2);
    AddedPointAtEnd(env, before.edges, before.pts, before.recs, before.rings, before.owner, lead, pt,
      m0.edges, m0.pts, m0.recs, m0.rings, m0.owner, r1);
  }

  /**
   * The second half of `AddLocalMinPoly`, from state `m` where the lead
   * `lead` (paired with `other`) got node `op1`: when `JoinsAtMin` holds
   * for the lead's predecessor `prevE`, `AddOutPt(prevE, pt)` takes the
   * state to `after` and, unless it fails, the join of `op1` and its node,
   * guided by the lead's top, is appended; otherwise nothing changes.  The
   * result is `op1`.
   */
  ghost predicate MinJoined(env: Collaborators, lead: int, other: int, pt: IntPoint, m: Snapshot, op1: int,
    r2: Result<int, string>, after: Snapshot, joins: seq<Join>, joins2: seq<Join>, res: Result<int, string>)
    requires OutputOk(m.pts, m.recs, m.rings, m.owner) && LinksInRange(m.edges)
    requires 0 <= lead < |m.edges| && 0 <= other < |m.edges|
  {
    var prevE := MinPrev(m.edges, lead, other);
    if JoinsAtMin(env.geo, m.edges, lead, prevE, pt) then
      OutPtAdded(env, m.edges, m.pts, m.recs, m.rings, m.owner, prevE, pt, after.edges, after.pts, after.recs, after.rings, after.owner, r2) &&
      match r2
      case Failure(_) => res.Failure? && joins2 == joins
      case Success(op2) => res == Success(op1) && joins2 == joins + [Join(op1, op2, m.edges[lead].Top)]
    else
      after == m && joins2 == joins && res == Success(op1)
  }

  /** What `AddLocalMinPoly` did: `MinStarted`, then, unless its point failed, `MinJoined`. */
  ghost predicate LocalMinAdded(env: Collaborators, e1: int, e2: int, pt: IntPoint,
    before: Snapshot, m0: Snapshot, r1: Result<int, string>, m: Snapshot, r2: Result<int, string>, after: Snapshot,
    joins: seq<Join>, joins2: seq<Join>, res: Result<int, string>)
    requires OutputOk(before.pts, before.recs, before.rings, before.owner) && LinksInRange(before.edges)
    requires 0 <= e1 < |before.edges| && 0 <= e2 < |before.edges|
  {
    match r1
    case Failure(_) => MinStarted(env, e1, e2, pt, before, m0, r1, m) && res.Failure? && after == m && joins2 == joins
    case Success(op1) =>
      MinStarted(env, e1, e2, pt, before, m0, r1, m) &&
      |m.edges| == |before.edges| && OutputOk(m.pts, m.recs, m.rings, m.owner) && LinksInRange(m.edges) &&
      var lead := MinLead(before.edges, e1, e2);
      MinJoined(env, lead, if lead == e1 then e2 else e1, pt, m, op1, r2, after, joins, joins2, res)
  }

  /** The first half of `AddLocalMinPoly` on the engine's state taken as values. */
  method StartMin(env: Collaborators, edges: seq<TEdge>, e1: int, e2: int, pt: IntPoint,
      pts: seq<OutPt>, recs: seq<OutRec>, ghost rings: seq<seq<int>>, ghost owner: seq<int>,
      activeEdges: int, ghost ael: seq<int>, sortedEdges: int, ghost sel: seq<int>)
    returns (r1: Result<int, string>, ghost m0: Snapshot,
      edges2: seq<TEdge>, pts2: seq<OutPt>, recs2: seq<OutRec>, ghost rings2: seq<seq<int>>, ghost owner2: seq<int>)
    requires ListsOk(edges, activeEdges, ael, sortedEdges, sel) && OutputOk(pts, recs, rings, owner)
    requires 0 <= e1 < |edges| && 0 <= e2 < |edges|
    ensures ListsOk(edges2, activeEdges, ael, sortedEdges, sel) && OutputOk(pts2, recs2, rings2, owner2) && |edges2| == |edges|
    ensures MinStarted(env, e1, e2, pt, Snapshot(edges, pts, recs, rings, owner), m0, r1, Snapshot(edges2, pts2, recs2, rings2, owner2))
  {
    var lead := MinLead(edges, e1, e2);
    r1, edges2, pts2, recs2, rings2, owner2 := AddPoint(env, edges, lead, pt, pts, recs, rings, owner, activeEdges, ael, sortedEdges, sel);
    m0 := Snapshot(edges2, pts2, recs2, rings2, owner2);
    if r1.Success? {
      var paired := MinPaired(edges2, e1, e2, lead);
      ListsKept(edges2, paired, activeEdges, ael, sortedEdges, sel);
      edges2 := paired;
    }
  }

  /** The second half of `AddLocalMinPoly` on the engine's state taken as values. */
  method JoinAtMin(env: Collaborators, edges: seq<TEdge>, lead: int, other: int, pt: IntPoint, op1: int,
      pts: seq<OutPt>, recs: seq<OutRec>, ghost rings: seq<seq<int>>, ghost owner: seq<int>, joins: seq<Join>,
      activeEdges: int, ghost ael: seq<int>, sortedEdges: int, ghost sel: seq<int>)
    returns (res: Result<int, string>, ghost r2: Result<int, string>,
      edges2: seq<TEdge>, pts2: seq<OutPt>, recs2: seq<OutRec>, ghost rings2: seq<seq<int>>, ghost owner2: seq<int>, joins2: seq<Join>)
    requires ListsOk(edges, activeEdges, ael, sortedEdges, sel) && OutputOk(pts, recs, rings, owner)
    requires 0 <= lead < |edges| && 0 <= other < |edges|
    ensures ListsOk(edges2, activeEdges, ael, sortedEdges, sel) && OutputOk(pts2, recs2, rings2, owner2) && |edges2| == |edges|
    ensures MinJoined(env, lead, other, pt, Snapshot(edges, pts, recs, rings, owner), op1, r2,
      Snapshot(edges2, pts2, recs2, rings2, owner2), joins, joins2, res)
  {
    var prevE := MinPrev(edges, lead, other);
    if !JoinsAtMin(env.geo, edges, lead, prevE, pt) {
      return Success(op1), Success(op1), edges, pts, recs, rings, owner, joins;
    }
    var added;
    added, edges2, pts2, recs2, rings2, owner2 := AddPoint(env, edges, prevE, pt, pts, recs, rings, owner, activeEdges, ael, sortedEdges, sel);
    r2 := added;
    if added.Failure? {
      return Failure(added.error), r2, edges2, pts2, recs2, rings2, owner2, joins;
    }
    res, joins2 := Success(op1), joins + [Join(op1, added.value, edges[lead].Top)];
  }

  /** The writes of `AddLocalMinPoly` on the engine's state taken as values. */
  method LocalMin(env: Collaborators, edges: seq<TEdge>, e1: int, e2: int, pt: IntPoint,
      pts: seq<OutPt>, recs: seq<OutRec>, ghost rings: seq<seq<int>>, ghost owner: seq<int>, joins: seq<Join>,
      activeEdges: int, ghost ael: seq<int>, sortedEdges: int, ghost sel: seq<int>)
    returns (res: Result<int, string>, edges2: seq<TEdge>, pts2: seq<OutPt>, recs2: seq<OutRec>, ghost rings2: seq<seq<int>>, ghost owner2: seq<int>,
      joins2: seq<Join>, ghost m0: Snapshot, ghost r1: Result<int, string>, ghost m: Snapshot, ghost r2: Result<int, string>)
    requires ListsOk(edges, activeEdges, ael, sortedEdges, sel) && OutputOk(pts, recs, rings, owner)
    requires 0 <= e1 < |edges| && 0 <= e2 < |edges|
    ensures ListsOk(edges2, activeEdges, ael, sortedEdges, sel) && OutputOk(pts2, recs2, rings2, owner2) && |edges2| == |edges|
    ensures LocalMinAdded(env, e1, e2, pt, Snapshot(edges, pts, recs, rings, owner), m0, r1, m, r2,
      Snapshot(edges2, pts2, recs2, rings2, owner2), joins, joins2, res)
  {
    var started;
    started, m0, edges2, pts2, recs2, rings2, owner2 := StartMin(env, edges, e1, e2, pt, pts, recs, rings, owner, activeEdges, ael, sortedEdges, sel);
    r1, m := started, Snapshot(edges2, pts2, recs2, rings2, owner2);
    if started.Failure? {
      return Failure(started.error), edges2, pts2, recs2, rings2, owner2, joins, m0, r1, m, r1;
    }
    var lead := MinLead(edges, e1, e2);
    res, r2, edges2, pts2, recs2, rings2, owner2, joins2 :=
      JoinAtMin(env, edges2, lead, if lead == e1 then e2 else e1, pt, started.value, pts2, recs2, rings2, owner2, joins, activeEdges, ael, sortedEdges, sel);
  }

  // ---------------------------------------------------------------------
  // FixupIntersectionOrder
  // ---------------------------------------------------------------------

  /** Sorting keeps every node's edges members of the list. */
  lemma SortedAllIn(list: seq<IntersectNode>, order: seq<int>)
    requires AllIn(list, order)
    ensures AllIn(SortNodes(list), order)
  {
    var s := SortNodes(list);
    forall m | 0 <= m < |s|
      ensures NodeIn(s[m], order)
    {
      assert s[m] in multiset(s);
      assert s[m] in multiset(list);
    }
  }

  /** The nodes of a list over the members of a chain name arena edges. */
  lemma NodesInArena(edges: seq<TEdge>, order: seq<int>, list: seq<IntersectNode>)
    requires Chain(edges, SEL, order) && AllIn(list, order)
    ensures forall m :: 0 <= m < |list| ==> 0 <= list[m].Edge1 < |edges| && 0 <= list[m].Edge2 < |edges|
  {
    forall m | 0 <= m < |list|
      ensures 0 <= list[m].Edge1 < |edges| && 0 <= list[m].Edge2 < |edges|
    {
      assert NodeIn(list[m], order);
      var a, b := IndexOf(order, list[m].Edge1), IndexOf(order, list[m].Edge2);
    }
  }

  /**
   * A node whose edges are adjacent in a chain of the SEL names two
   * distinct members that the swap does not refuse, and the swap is its
   * `Exchange`.
   */
  lemma AdjacentSwappable(edges: seq<TEdge>, order: seq<int>, n: IntersectNode)
    requires Chain(edges, SEL, order) && Adjacent(order, n)
    ensures 0 <= n.Edge1 < |edges| && 0 <= n.Edge2 < |edges| && n.Edge1 != n.Edge2
    ensures !Refuses(edges[n.Edge1], SEL) && !Refuses(edges[n.Edge2], SEL)
  {
    var a, b := IndexOf(order, n.Edge1), IndexOf(order, n.Edge2);
    MemberLinks(edges, SEL, order, a);
    MemberLinks(edges, SEL, order, b);
  }

  /** `FixupIntersectionOrder` on the arena: sort, copy the AEL into the SEL, repair. */
  method SortAndFix(edges: seq<TEdge>, activeEdges: int, ghost ael: seq<int>, sortedEdges: int, ghost sel: seq<int>, list: seq<IntersectNode>)
    returns (ok: bool, r: seq<TEdge>, head: int, ghost sel2: seq<int>, l: seq<IntersectNode>)
    requires ListsOk(edges, activeEdges, ael, sortedEdges, sel) && AllIn(list, ael)
    ensures ListsOk(r, activeEdges, ael, head, sel2) && FixedUp(ael, list, l, ok, sel2)
  {
    SortedAllIn(list, ael);
    var sorted := SortNodes(list);
    var copied := CopyAelLinks(edges, activeEdges, ael);
    ok, r, head, sel2, l := FixupSel(copied, activeEdges, ael, activeEdges, ael, sorted);
    assert |l| == |sorted|;
  }

  /**
   * The loop of `FixupIntersectionOrder` over a sorted list on the SEL
   * `order`: at each position a node whose edges are not adjacent trades
   * places with the first later one whose edges are, or the loop gives up;
   * the node is then swapped in the SEL.  The list, the outcome and the SEL
   * are what `Fixup` says.
   */
  method FixupSel(edges: seq<TEdge>, activeEdges: int, ghost ael: seq<int>, sortedEdges: int, ghost order: seq<int>, list: seq<IntersectNode>)
    returns (ok: bool, r: seq<TEdge>, head: int, ghost sel: seq<int>, l: seq<IntersectNode>)
    requires ListsOk(edges, activeEdges, ael, sortedEdges, order) && AllIn(list, order)
    ensures ListsOk(r, activeEdges, ael, head, sel)
    ensures var f := Fixup(order, list);
      l == f.0 && ok == (f.1 == |list|) && Playable(order, l[..f.1]) && sel == Replay(order, l[..f.1])
  {
    r, head, sel, l := edges, sortedEdges, order, list;
    var i := 0;
    while i < |l|
      invariant 0 <= i <= |l| == |list|
      invariant ListsOk(r, activeEdges, ael, head, sel) && AllIn(l, sel)
      invariant Playable(order, l[..i]) && sel == Replay(order, l[..i])
      invariant FixupFrom(sel, l, i) == Fixup(order, list)
    {
      ok, r, head, sel, l := FixupRound(r, activeEdges, ael, head, sel, l, i, order);
      if !ok {
        return;
      }
      i := i + 1;
    }
    return true, r, head, sel, l;
  }

  /**
   * One round of `FixupSel` at position `i`: find the first node from `i`
   * on whose edges are adjacent in the SEL (giving up when there is none),
   * trade it into place `i` and swap its edges in the SEL.
   */
  method FixupRound(edges: seq<TEdge>, activeEdges: int, ghost ael: seq<int>, head: int, ghost sel: seq<int>,
                    l: seq<IntersectNode>, i: int, ghost order: seq<int>)
    returns (ok: bool, r: seq<TEdge>, head2: int, ghost sel2: seq<int>, l2: seq<IntersectNode>)
    requires 0 <= i < |l| && ListsOk(edges, activeEdges, ael, head, sel) && AllIn(l, sel)
    requires Playable(order, l[..i]) && sel == Replay(order, l[..i])
    ensures !ok ==> FixupFrom(sel, l, i) == (l, i) && r == edges && head2 == head && sel2 == sel && l2 == l
    ensures ok ==> (|l2| == |l| && ListsOk(r, activeEdges, ael, head2, sel2) && AllIn(l2, sel2) &&
      Playable(order, l2[..i + 1]) && sel2 == Replay(order, l2[..i + 1]) &&
      FixupFrom(sel2, l2, i + 1) == FixupFrom(sel, l, i))
  {
    NodesInArena(edges, sel, l);
    var j := FindAdjacent(edges, l, i);
    FoundFirstAdjacent(edges, sel, l, i, j);
    if j == |l| {
      assert FixupFrom(sel, l, i) == (l, i);
      return false, edges, head, sel, l;
    }
    l2 := l[i := l[j]][j := l[i]];
    FixupStepped(order, sel, l, i, j);
    AdjacentSwappable(edges, sel, l2[i]);
    r, head2, sel2 := SwapInList(edges, SEL, l2[i].Edge1, l2[i].Edge2, head, sel, activeEdges, ael);
    ok := true;
  }

  /**
   * The inner search of `FixupIntersectionOrder`: the first node from `i`
   * on whose edges are linked to each other in the SEL, or `|l|` when none
   * is.
   */
  method FindAdjacent(edges: seq<TEdge>, l: seq<IntersectNode>, i: int) returns (j: int)
    requires 0 <= i < |l| && forall m :: 0 <= m < |l| ==> 0 <= l[m].Edge1 < |edges|
    ensures i <= j <= |l| && (j < |l| ==> EdgesAdjacent(edges, l[j]))
    ensures forall m :: i <= m < j ==> !EdgesAdjacent(edges, l[m])
  {
    if EdgesAdjacent(edges, l[i]) {
      return i;
    }
    j := i + 1;
    while j < |l| && !EdgesAdjacent(edges, l[j])
      invariant i < j <= |l|
      invariant forall m :: i <= m < j ==> !EdgesAdjacent(edges, l[m])
    {
      j := j + 1;
    }
  }

  /** On a well-formed SEL, the position the search stops at is `FirstAdjacent`. */
  lemma FoundFirstAdjacent(edges: seq<TEdge>, sel: seq<int>, l: seq<IntersectNode>, i: int, j: int)
    requires Chain(edges, SEL, sel) && AllIn(l, sel) && 0 <= i <= j <= |l|
    requires forall m :: 0 <= m < |l| ==> 0 <= l[m].Edge1 < |edges|
    requires j < |l| ==> EdgesAdjacent(edges, l[j])
    requires forall m :: i <= m < j ==> !EdgesAdjacent(edges, l[m])
    ensures j == FirstAdjacent(sel, l, i)
  {
    AdjacencyAgrees(edges, sel, l);
    FirstAdjacentUnique(sel, l, i, j);
  }

  /** On a well-formed SEL, two edges are linked to each other exactly when they are neighbours in its order. */
  lemma AdjacencyAgrees(edges: seq<TEdge>, sel: seq<int>, l: seq<IntersectNode>)
    requires Chain(edges, SEL, sel) && AllIn(l, sel)
    ensures forall m :: 0 <= m < |l| ==> 0 <= l[m].Edge1 < |edges| && (EdgesAdjacent(edges, l[m]) <==> Adjacent(sel, l[m]))
  {
    forall m | 0 <= m < |l|
      ensures 0 <= l[m].Edge1 < |edges| && (EdgesAdjacent(edges, l[m]) <==> Adjacent(sel, l[m]))
    {
      assert NodeIn(l[m], sel);
      LinkedAdjacent(edges, sel, l[m]);
    }
  }

  /** `FirstAdjacent` is the one position with its two properties. */
  lemma FirstAdjacentUnique(order: seq<int>, list: seq<IntersectNode>, i: int, j: int)
    requires 0 <= i <= j <= |list|
    requires forall m :: i <= m < j ==> !Adjacent(order, list[m])
    requires j < |list| ==> Adjacent(order, list[j])
    ensures FirstAdjacent(order, list, i) == j
  {
  }

  /**
   * One round of the loop: trading the node at `i` with the first adjacent
   * one at `j` and swapping it in the SEL continues the same repair, and
   * keeps the replay facts.
   */
  lemma FixupStepped(order: seq<int>, sel: seq<int>, l: seq<IntersectNode>, i: int, j: int)
    requires 0 <= i <= j < |l| && AllIn(l, sel) && FirstAdjacent(sel, l, i) == j
    requires Playable(order, l[..i]) && sel == Replay(order, l[..i])
    ensures var l2 := l[i := l[j]][j := l[i]];
      Adjacent(sel, l2[i]) && AllIn(l2, Exchange(sel, l2[i])) &&
      Playable(order, l2[..i + 1]) && Replay(order, l2[..i + 1]) == Exchange(sel, l2[i]) &&
      FixupFrom(Exchange(sel, l2[i]), l2, i + 1) == FixupFrom(sel, l, i)
  {
    SteppedAllIn(sel, l, i, j);
    SteppedReplay(order, sel, l, i, j);
  }

  /** The traded list still names edges of the SEL after the swap. */
  lemma SteppedAllIn(sel: seq<int>, l: seq<IntersectNode>, i: int, j: int)
    requires 0 <= i <= j < |l| && AllIn(l, sel)
    ensures AllIn(l[i := l[j]][j := l[i]], Exchange(sel, l[j]))
  {
    var l2 := l[i := l[j]][j := l[i]];
    SwappedWithin(l, i, j);
    AllInWithin(l2, l, sel);
    AllInExchange(sel, l2);
    assert l2[i] == l[j];
  }

  /** Replaying the repaired prefix one node further gives the swapped SEL. */
  lemma SteppedReplay(order: seq<int>, sel: seq<int>, l: seq<IntersectNode>, i: int, j: int)
    requires 0 <= i <= j < |l| && AllIn(l, sel) && FirstAdjacent(sel, l, i) == j
    requires Playable(order, l[..i]) && sel == Replay(order, l[..i])
    ensures var l2 := l[i := l[j]][j := l[i]];
      Playable(order, l2[..i + 1]) && Replay(order, l2[..i + 1]) == Exchange(sel, l2[i])
  {
    var l2 := l[i := l[j]][j := l[i]];
    assert l2[..i] == l[..i];
    assert l2[..i + 1] == l[..i] + [l2[i]];
    ReplaySnoc(order, l[..i], l2[i]);
  }

  // ---------------------------------------------------------------------
  // BuildIntersectList
  // ---------------------------------------------------------------------

  /** `Math.abs(a) > Math.abs(b)` on two `Dx` values, `HORIZONTAL` being larger in size than any inverse slope. */
  predicate WiderDx(a: Slope, b: Slope)
  {
    match (a, b)
    case (Horizontal, Horizontal) => false
    case (Horizontal, Ratio(_)) => true
    case (Ratio(_), Horizontal) => false
    case (Ratio(u), Ratio(v)) => (if u < 0.0 then -u else u) > (if v < 0.0 then -v else v)
  }

  /**
   * The point recorded for the crossing of `e1` and `e2`: one computed
   * below the band's bottom `botY` is lifted to it, onto the steeper of the
   * two edges (the one whose `Dx` is the smaller in size).
   */
  function ClampedPoint(pt: IntPoint, botY: int, e1: TEdge, e2: TEdge, geo: Geometry): (r: IntPoint)
    ensures r.y == Min(pt.y, botY)
    ensures pt.y <= botY ==> r == pt
    ensures pt.y > botY ==> r.x == TopX(if WiderDx(e1.Dx, e2.Dx) then e2 else e1, botY, geo)
  {
    if pt.y > botY then
      IntPoint(if WiderDx(e1.Dx, e2.Dx) then TopX(e2, botY, geo) else TopX(e1, botY, geo), botY)
    else pt
  }

  /** The edge with its current X moved to where its line crosses `topY`. */
  function AtTop(e: TEdge, topY: int, geo: Geometry): TEdge
  {
    e.(Curr := e.Curr.(x := TopX(e, topY, geo)))
  }

  /**
   * The X half of the first walk of `BuildIntersectList`: every active
   * edge's current X becomes its X at `topY`; nothing else changes.
   */
  method MoveToTop(edges: seq<TEdge>, head: int, ghost order: seq<int>, topY: int, geo: Geometry) returns (r: seq<TEdge>)
    requires Linked(edges, AEL, head, order)
    ensures |r| == |edges| && AllLinksSame(edges, r)
    ensures forall x :: 0 <= x < |edges| ==> r[x] == if x in order then AtTop(edges[x], topY, geo) else edges[x]
  {
    r := edges;
    var edge := head;
    ghost var p := 0;
    while edge != NULL
      invariant 0 <= p <= |order| && edge == At(order, p) && |r| == |edges|
      invariant forall x :: 0 <= x < |edges| ==> r[x] == if x in order[..p] then AtTop(edges[x], topY, geo) else edges[x]
      decreases |order| - p
    {
      assert NextIn(edges[order[p]], AEL) == At(order, p + 1);
      assert order[p] !in order[..p];
      assert order[..p + 1] == order[..p] + [order[p]];
      r := r[edge := AtTop(r[edge], topY, geo)];
      edge := r[edge].NextInAEL;
      p := p + 1;
    }
    assert order[..p] == order;
  }

  /**
   * The state of the bubble sort of `BuildIntersectList` over the arena
   * `keyed` (current X set, SEL a copy of the AEL): the SEL of `r` holds
   * `w`, the part still unsorted; `tail` is the part already in place, in
   * ascending X and at least as far right as anything in `w`; the nodes
   * recorded so far replay the AEL to `w + tail`, each an inversion of its
   * neighbours when it was found; only SEL links have changed.
   */
  ghost predicate Bubbling(keyed: seq<TEdge>, r: seq<TEdge>, activeEdges: int, ael: seq<int>, head: int,
                           w: seq<int>, tail: seq<int>, nodes: seq<IntersectNode>)
  {
    ListsOk(r, activeEdges, ael, head, w) && OnlyLinksChanged(keyed, r, SEL) &&
    Inversions(keyed, ael, nodes) && Replay(ael, nodes) == w + tail &&
    InArena(keyed, w) && InArena(keyed, tail) && SortedByX(keyed, tail) &&
    forall i, j :: 0 <= i < |w| && 0 <= j < |tail| ==> X(keyed, w[i]) <= X(keyed, tail[j])
  }

  /** Swapping the inverted neighbours at `k` and `k + 1` of the SEL and recording the node keeps the sort's state. */
  lemma SwapKeepsBubbling(keyed: seq<TEdge>, r: seq<TEdge>, r2: seq<TEdge>, activeEdges: int, ael: seq<int>, head: int, head2: int,
                          w: seq<int>, w2: seq<int>, tail: seq<int>, nodes: seq<IntersectNode>, k: int, pt: IntPoint)
    requires Bubbling(keyed, r, activeEdges, ael, head, w, tail, nodes) && 0 <= k < |w| - 1
    requires X(keyed, w[k]) > X(keyed, w[k + 1])
    requires ListsOk(r2, activeEdges, ael, head2, w2) && OnlyLinksChanged(r, r2, SEL)
    requires w2 == w[k := w[k + 1]][k + 1 := w[k]]
    ensures Bubbling(keyed, r2, activeEdges, ael, head2, w2, tail, nodes + [IntersectNode(w[k], w[k + 1], pt)])
  {
    var n := IntersectNode(w[k], w[k + 1], pt);
    ReplayDistinct(ael, nodes);
    ExchangeNeighbours(w, tail, k, n);
    InversionsSnoc(keyed, ael, nodes, n);
    OnlyLinksChangedTrans(keyed, r, r2, SEL);
    forall i, j | 0 <= i < |w2| && 0 <= j < |tail|
      ensures X(keyed, w2[i]) <= X(keyed, tail[j])
    {
      var o := if i == k then k + 1 else if i == k + 1 then k else i;
      assert w2[i] == w[o];
    }
  }

  /** Cutting the last edge of the unsorted part off the SEL moves it to the front of the sorted part. */
  lemma TruncateKeepsBubbling(keyed: seq<TEdge>, r: seq<TEdge>, activeEdges: int, ael: seq<int>, head: int,
                              w: seq<int>, tail: seq<int>, nodes: seq<IntersectNode>)
    requires Bubbling(keyed, r, activeEdges, ael, head, w, tail, nodes) && |w| >= 2
    requires forall i :: 0 <= i < |w| ==> X(keyed, w[i]) <= X(keyed, w[|w| - 1])
    ensures 0 <= w[|w| - 2] < |r|
    ensures Bubbling(keyed, SetNext(r, SEL, w[|w| - 2], NULL), activeEdges, ael, head, w[..|w| - 1], [w[|w| - 1]] + tail, nodes)
    ensures SortedByX(keyed, w) ==> SortedByX(keyed, w[..|w| - 1])
  {
    TruncatedLists(keyed, r, activeEdges, ael, head, w);
    TruncatedOrder(keyed, w, tail);
  }

  /** The list half of `TruncateKeepsBubbling`. */
  lemma TruncatedLists(keyed: seq<TEdge>, r: seq<TEdge>, activeEdges: int, ael: seq<int>, head: int, w: seq<int>)
    requires ListsOk(r, activeEdges, ael, head, w) && OnlyLinksChanged(keyed, r, SEL) && |w| >= 2
    ensures 0 <= w[|w| - 2] < |r|
    ensures var r2 := SetNext(r, SEL, w[|w| - 2], NULL);
      ListsOk(r2, activeEdges, ael, head, w[..|w| - 1]) && OnlyLinksChanged(keyed, r2, SEL)
  {
    var r2 := SetNext(r, SEL, w[|w| - 2], NULL);
    SetNextKeeps(r, SEL, w[|w| - 2], NULL);
    OnlyLinksChangedTrans(keyed, r, r2, SEL);
    OtherListKept(r, r2, SEL, AEL);
    ChainKept(r, r2, AEL, ael);
    TruncatedChain(r, SEL, w);
  }

  /** The order half of `TruncateKeepsBubbling`: the rightmost unsorted edge joins the sorted part. */
  lemma TruncatedOrder(keyed: seq<TEdge>, w: seq<int>, tail: seq<int>)
    requires InArena(keyed, w) && InArena(keyed, tail) && SortedByX(keyed, tail) && |w| >= 1
    requires forall i, j :: 0 <= i < |w| && 0 <= j < |tail| ==> X(keyed, w[i]) <= X(keyed, tail[j])
    requires forall i :: 0 <= i < |w| ==> X(keyed, w[i]) <= X(keyed, w[|w| - 1])
    ensures var w2, t2 := w[..|w| - 1], [w[|w| - 1]] + tail;
      w2 + t2 == w + tail && InArena(keyed, w2) && InArena(keyed, t2) && SortedByX(keyed, t2) &&
      (forall i, j :: 0 <= i < |w2| && 0 <= j < |t2| ==> X(keyed, w2[i]) <= X(keyed, t2[j])) &&
      (SortedByX(keyed, w) ==> SortedByX(keyed, w2))
  {
    var w2, t2 := w[..|w| - 1], [w[|w| - 1]] + tail;
    assert w2 + t2 == w + tail;
    forall i, j | 0 <= i < j < |t2|
      ensures X(keyed, t2[i]) <= X(keyed, t2[j])
    {
      if i > 0 {
        assert t2[i] == tail[i - 1];
      }
      assert t2[j] == tail[j - 1];
    }
    forall i, j | 0 <= i < |w2| && 0 <= j < |t2|
      ensures X(keyed, w2[i]) <= X(keyed, t2[j])
    {
      if j > 0 {
        assert t2[j] == tail[j - 1];
      }
    }
  }

  /** The edge at `k` is as far right as every edge before it. */
  predicate MaxAt(keyed: seq<TEdge>, w: seq<int>, k: int)
  {
    InArena(keyed, w) && 0 <= k < |w| && forall i :: 0 <= i < k ==> X(keyed, w[i]) <= X(keyed, w[k])
  }

  /** The edges up to position `k` are in ascending X. */
  predicate SortedUpTo(keyed: seq<TEdge>, w: seq<int>, k: int)
  {
    InArena(keyed, w) && 0 <= k < |w| && forall i, j :: 0 <= i < j <= k ==> X(keyed, w[i]) <= X(keyed, w[j])
  }

  /** Swapping the rightmost edge so far past a successor to its left keeps it the rightmost so far. */
  lemma SwappedMax(keyed: seq<TEdge>, w: seq<int>, k: int)
    requires MaxAt(keyed, w, k) && k < |w| - 1 && X(keyed, w[k]) > X(keyed, w[k + 1])
    ensures MaxAt(keyed, w[k := w[k + 1]][k + 1 := w[k]], k + 1)
  {
  }

  /** Stepping on to a successor at least as far right keeps the rightmost so far, and an ascending run. */
  lemma AdvancedMax(keyed: seq<TEdge>, w: seq<int>, k: int)
    requires MaxAt(keyed, w, k) && k < |w| - 1 && X(keyed, w[k]) <= X(keyed, w[k + 1])
    ensures MaxAt(keyed, w, k + 1)
    ensures SortedUpTo(keyed, w, k) ==> SortedUpTo(keyed, w, k + 1)
  {
  }

  /**
   * The state inside one pass of the bubble sort: the sort's state, the
   * pass at position `k` of the unsorted part holding the rightmost edge
   * met so far, `edge`, and the part up to it ascending while no swap has
   * happened.
   */
  ghost predicate Passing(keyed: seq<TEdge>, r: seq<TEdge>, activeEdges: int, ael: seq<int>, head: int,
                          w: seq<int>, tail: seq<int>, nodes: seq<IntersectNode>, k: int, edge: int, modified: bool)
  {
    match (edge, modified)
    case (e, m) =>
      Bubbling(keyed, r, activeEdges, ael, head, w, tail, nodes) && MaxAt(keyed, w, k) && e == w[k] &&
      0 <= e < |r| && r[e].NextInSEL == At(w, k + 1) && (!m ==> SortedUpTo(keyed, w, k))
  }

  /** The pass starts at the head of the unsorted part. */
  lemma PassStarts(keyed: seq<TEdge>, r: seq<TEdge>, activeEdges: int, ael: seq<int>, head: int,
                   w: seq<int>, tail: seq<int>, nodes: seq<IntersectNode>)
    requires Bubbling(keyed, r, activeEdges, ael, head, w, tail, nodes) && |w| >= 1
    ensures Passing(keyed, r, activeEdges, ael, head, w, tail, nodes, 0, head, false)
  {
    assert NextIn(r[w[0]], SEL) == At(w, 1);
  }

  /** The pass ends at the last edge, which is then the rightmost of all. */
  lemma PassEnds(keyed: seq<TEdge>, r: seq<TEdge>, activeEdges: int, ael: seq<int>, head: int,
                 w: seq<int>, tail: seq<int>, nodes: seq<IntersectNode>, k: int, edge: int, modified: bool)
    requires Passing(keyed, r, activeEdges, ael, head, w, tail, nodes, k, edge, modified) && r[edge].NextInSEL == NULL
    ensures k == |w| - 1 && edge == w[|w| - 1]
    ensures forall i :: 0 <= i < |w| ==> X(keyed, w[i]) <= X(keyed, edge)
    ensures !modified ==> SortedByX(keyed, w)
  {
  }

  /**
   * One step of a pass: when the successor of `edge` lies to its left,
   * record their crossing and swap them in the SEL (failing when the
   * intersection fails between edges more than one unit apart); otherwise
   * move on to the successor.
   */
  method BubbleStep(env: Collaborators, botY: int, keyed: seq<TEdge>, r: seq<TEdge>, activeEdges: int, ghost ael: seq<int>,
                    head: int, ghost w: seq<int>, ghost tail: seq<int>, nodes: seq<IntersectNode>, ghost k: int, edge: int, modified: bool)
    returns (res: Result<(), string>, r2: seq<TEdge>, head2: int, ghost w2: seq<int>, nodes2: seq<IntersectNode>, edge2: int, modified2: bool)
    requires Passing(keyed, r, activeEdges, ael, head, w, tail, nodes, k, edge, modified) && r[edge].NextInSEL != NULL
    ensures ListsOk(r2, activeEdges, ael, head2, w2) && OnlyLinksChanged(keyed, r2, SEL)
    ensures res.Success? ==> Passing(keyed, r2, activeEdges, ael, head2, w2, tail, nodes2, k + 1, edge2, modified2) && |w2| == |w|
  {
    var next := r[edge].NextInSEL;
    assert next == w[k + 1] && 0 <= next < |r|;
    assert SameBut(keyed[edge], r[edge], SEL) && SameBut(keyed[next], r[next], SEL);
    if r[edge].Curr.x > r[next].Curr.x {
      var ip := env.intersectPoint(r[edge], r[next]);
      if !ip.0 && r[edge].Curr.x > r[next].Curr.x + 1 {
        return Failure("Intersection error"), r, head, w, nodes, edge, modified;
      }
      var n := IntersectNode(edge, next, ClampedPoint(ip.1, botY, r[edge], r[next], env.geo));
      res, r2, head2, w2 := SwapNeighbours(keyed, r, activeEdges, ael, head, w, tail, nodes, k, n);
      nodes2, edge2, modified2 := nodes + [n], edge, true;
      SwappedMax(keyed, w, k);
      assert NextIn(r2[w2[k + 1]], SEL) == At(w2, k + 2);
    } else {
      res, r2, head2, w2, nodes2, edge2, modified2 := Success(()), r, head, w, nodes, next, modified;
      AdvancedMax(keyed, w, k);
      assert NextIn(r[w[k + 1]], SEL) == At(w, k + 2);
    }
  }

  /** `SwapPositionsInSEL` on the inverted neighbours at `k` and `k + 1`, with the node `n` recording it. */
  method SwapNeighbours(keyed: seq<TEdge>, r: seq<TEdge>, activeEdges: int, ghost ael: seq<int>, head: int,
                        ghost w: seq<int>, ghost tail: seq<int>, nodes: seq<IntersectNode>, ghost k: int, n: IntersectNode)
    returns (res: Result<(), string>, r2: seq<TEdge>, head2: int, ghost w2: seq<int>)
    requires Bubbling(keyed, r, activeEdges, ael, head, w, tail, nodes) && 0 <= k < |w| - 1
    requires n.Edge1 == w[k] && n.Edge2 == w[k + 1] && X(keyed, w[k]) > X(keyed, w[k + 1])
    ensures res.Success? && w2 == w[k := w[k + 1]][k + 1 := w[k]]
    ensures Bubbling(keyed, r2, activeEdges, ael, head2, w2, tail, nodes + [n])
  {
    IndexOfUnique(w, n.Edge1, k);
    IndexOfUnique(w, n.Edge2, k + 1);
    AdjacentSwappable(r, w, n);
    r2, head2, w2 := SwapInList(r, SEL, n.Edge1, n.Edge2, head, w, activeEdges, ael);
    SwapKeepsBubbling(keyed, r, r2, activeEdges, ael, head, head2, w, w2, tail, nodes, k, n.Pt);
    res := Success(());
  }

  /**
   * One pass of the bubble sort: walk the unsorted part of the SEL,
   * swapping each edge with its successor while that one lies to its left
   * and recording the crossing, so that the rightmost edge ends last;
   * `modified` says whether any swap happened.
   */
  method BubblePass(env: Collaborators, botY: int, keyed: seq<TEdge>, edges: seq<TEdge>, activeEdges: int, ghost ael: seq<int>,
                    head: int, ghost w: seq<int>, ghost tail: seq<int>, nodes: seq<IntersectNode>)
    returns (res: Result<(), string>, r: seq<TEdge>, head2: int, ghost w2: seq<int>, nodes2: seq<IntersectNode>, modified: bool, last: int)
    requires Bubbling(keyed, edges, activeEdges, ael, head, w, tail, nodes) && |w| >= 1
    ensures ListsOk(r, activeEdges, ael, head2, w2) && OnlyLinksChanged(keyed, r, SEL)
    ensures res.Success? ==> (Bubbling(keyed, r, activeEdges, ael, head2, w2, tail, nodes2) && |w2| == |w| &&
      last == w2[|w2| - 1] && (forall i :: 0 <= i < |w2| ==> X(keyed, w2[i]) <= X(keyed, last)) &&
      (!modified ==> SortedByX(keyed, w2)))
  {
    r, head2, w2, nodes2, modified := edges, head, w, nodes, false;
    var edge := head;
    ghost var k := 0;
    PassStarts(keyed, r, activeEdges, ael, head, w, tail, nodes);
    while r[edge].NextInSEL != NULL
      invariant Passing(keyed, r, activeEdges, ael, head2, w2, tail, nodes2, k, edge, modified) && |w2| == |w|
      decreases |w2| - k
    {
      res, r, head2, w2, nodes2, edge, modified := BubbleStep(env, botY, keyed, r, activeEdges, ael, head2, w2, tail, nodes2, k, edge, modified);
      if res.Failure? {
        last := edge;
        return;
      }
      k := k + 1;
    }
    PassEnds(keyed, r, activeEdges, ael, head2, w2, tail, nodes2, k, edge, modified);
    res, last := Success(()), edge;
  }

  /**
   * The bubble sort of `BuildIntersectList` on the arena `keyed`: passes
   * over a shrinking SEL until one swaps nothing or one edge is left.  On
   * success the nodes found are inversions of the AEL in the order found,
   * and after the last of them it is in ascending X.
   */
  method BubbleSort(env: Collaborators, botY: int, keyed: seq<TEdge>, activeEdges: int, ghost ael: seq<int>)
    returns (res: Result<(), string>, r: seq<TEdge>, head: int, ghost w: seq<int>, nodes: seq<IntersectNode>)
    requires ListsOk(keyed, activeEdges, ael, activeEdges, ael)
    ensures ListsOk(r, activeEdges, ael, head, w) && OnlyLinksChanged(keyed, r, SEL)
    ensures res.Success? ==> Inversions(keyed, ael, nodes) && InArena(keyed, Replay(ael, nodes)) && SortedByX(keyed, Replay(ael, nodes))
  {
    r, head, w, nodes := keyed, activeEdges, ael, [];
    ghost var tail: seq<int> := [];
    assert w + tail == ael;
    var isModified := true;
    while isModified && head != NULL
      invariant Bubbling(keyed, r, activeEdges, ael, head, w, tail, nodes)
      invariant !isModified ==> SortedByX(keyed, w)
      decreases |w|
    {
      var last;
      res, r, head, w, nodes, isModified, last := BubblePass(env, botY, keyed, r, activeEdges, ael, head, w, tail, nodes);
      if res.Failure? {
        return;
      }
      assert PrevIn(r[w[|w| - 1]], SEL) == At(w, |w| - 2);
      if r[last].PrevInSEL != NULL {
        TruncateKeepsBubbling(keyed, r, activeEdges, ael, head, w, tail, nodes);
        r := SetNext(r, SEL, r[last].PrevInSEL, NULL);
        tail := [last] + tail;
        w := w[..|w| - 1];
      } else {
        break;
      }
    }
    res := Success(());
    SortedJoin(keyed, w, tail);
  }

  /**
   * What a successful `BuildIntersectList(botY, topY)` leaves, from the
   * arena `before` and the intersection list `list0`: every active edge's
   * current X is its X at `topY`, and nothing else of any edge changes but
   * its SEL links; the list keeps its nodes and adds new ones, each an
   * inversion by current X of two neighbours of the AEL as the earlier new
   * nodes left it, and after the last of them the AEL is in ascending X.
   */
  ghost predicate Bubbled(geo: Geometry, topY: int, ael: seq<int>, before: seq<TEdge>, after: seq<TEdge>,
                          list0: seq<IntersectNode>, list: seq<IntersectNode>)
  {
    match (list0, list)
    case (l0, l) =>
      |after| == |before| &&
      (forall x :: 0 <= x < |before| ==> SameBut(if x in ael then AtTop(before[x], topY, geo) else before[x], after[x], SEL)) &&
      |l0| <= |l| && l[..|l0|] == l0 &&
      Inversions(after, ael, l[|l0|..]) && InArena(after, Replay(ael, l[|l0|..])) &&
      SortedByX(after, Replay(ael, l[|l0|..]))
  }

  /** The arena and the nodes the bubble sort leaves are as `Bubbled` says. */
  lemma BubbledFrom(geo: Geometry, topY: int, ael: seq<int>, edges: seq<TEdge>, moved: seq<TEdge>, keyed: seq<TEdge>, r: seq<TEdge>,
                    list: seq<IntersectNode>, nodes: seq<IntersectNode>)
    requires |moved| == |edges| && forall x :: 0 <= x < |edges| ==> moved[x] == if x in ael then AtTop(edges[x], topY, geo) else edges[x]
    requires OnlyLinksChanged(moved, keyed, SEL) && OnlyLinksChanged(keyed, r, SEL)
    requires Inversions(keyed, ael, nodes) && InArena(keyed, Replay(ael, nodes)) && SortedByX(keyed, Replay(ael, nodes))
    ensures Bubbled(geo, topY, ael, edges, r, list, list + nodes)
  {
    OnlyLinksChangedTrans(moved, keyed, r, SEL);
    forall x | 0 <= x < |r|
      ensures keyed[x].Curr.x == r[x].Curr.x
    {
      assert SameBut(keyed[x], r[x], SEL);
    }
    KeysKept(keyed, r, ael, nodes);
    var l := list + nodes;
    assert l[..|list|] == list && l[|list|..] == nodes;
  }

  /** `BuildIntersectList` on the arena, for a non-empty AEL. */
  method BuildList(env: Collaborators, botY: int, topY: int, edges: seq<TEdge>, activeEdges: int, ghost ael: seq<int>,
                   sortedEdges: int, ghost sel: seq<int>, list: seq<IntersectNode>)
    returns (res: Result<(), string>, r: seq<TEdge>, head: int, ghost sel2: seq<int>, l: seq<IntersectNode>)
    requires ListsOk(edges, activeEdges, ael, sortedEdges, sel)
    ensures ListsOk(r, activeEdges, ael, head, sel2)
    ensures res.Success? ==> head == NULL && sel2 == [] && Bubbled(env.geo, topY, ael, edges, r, list, l)
  {
    var moved := MoveToTop(edges, activeEdges, ael, topY, env.geo);
    ListsKept(edges, moved, activeEdges, ael, sortedEdges, sel);
    var keyed := CopyAelLinks(moved, activeEdges, ael);
    var nodes;
    res, r, head, sel2, nodes := BubbleSort(env, botY, keyed, activeEdges, ael);
    l := list + nodes;
    if res.Success? {
      head, sel2 := NULL, [];
      BubbledFrom(env.geo, topY, ael, edges, moved, keyed, r, list, nodes);
    }
  }

  // ---------------------------------------------------------------------
  // Crossings and the intersection pass
  // ---------------------------------------------------------------------

  /** `order` without its member `e` when `drop` holds; `order` itself otherwise. */
  function Dropped(order: seq<int>, e: int, drop: bool): (r: seq<int>)
    ensures |r| == if drop && e in order then |order| - 1 else |order|
    ensures forall x :: x in r ==> x in order
  {
    if drop && e in order then order[..IndexOf(order, e)] + order[IndexOf(order, e) + 1..] else order
  }

  /** Dropping the head of a non-empty list leaves its tail. */
  lemma DroppedHead(order: seq<int>)
    ensures order != [] ==> Dropped(order, order[0], true) == order[1..]
  {
  }

  /**
   * `visits` took the edges of `sel` in order, each with an arena of the
   * same bound shape as `edges`.
   */
  ghost predicate Visited(sel: seq<int>, edges: seq<TEdge>, visits: seq<HorzVisit>)
  {
    |visits| == |sel| && forall i :: 0 <= i < |visits| ==> visits[i].h == sel[i] && BoundsKept(edges, visits[i].arena)
  }

  /** One more visit, of the next edge of `sel`, keeps `Visited`. */
  lemma VisitedExtended(sel: seq<int>, edges: seq<TEdge>, visits: seq<HorzVisit>, v: HorzVisit)
    requires |visits| < |sel| && Visited(sel[..|visits|], edges, visits)
    requires v.h == sel[|visits|] && BoundsKept(edges, v.arena)
    ensures Visited(sel[..|visits| + 1], edges, visits + [v])
  {
  }

  /** Dropping a member of a list without repeats removes exactly that member. */
  lemma DroppedMembers(order: seq<int>, e: int, x: int)
    requires Distinct(order) && e in order
    ensures x in Dropped(order, e, true) <==> x in order && x != e
  {
    var p := IndexOf(order, e);
    var d := Dropped(order, e, true);
    if x in d {
      var j :| 0 <= j < |d| && d[j] == x;
      if j < p {
        assert d[j] == order[j];
      } else {
        assert d[j] == order[j + 1];
      }
    }
    if x in order && x != e {
      var i := IndexOf(order, x);
      if i < p {
        assert d[i] == x;
      } else {
        assert d[i - 1] == x;
      }
    }
  }

  /**
   * The intermediate states of the output step of one crossing: the state
   * after the first and the second point added (`m1`, `m2`) with what
   * `AddOutPt` returned for each (`r1`, `r2`), the node a local minimum
   * returned (`started`), and the state and result the step ends with.
   */
  datatype OutputTrace = OutputTrace(m1: Snapshot, r1: Result<int, string>, m2: Snapshot, r2: Result<int, string>,
    started: Result<int, string>, after: Snapshot, res: Result<(), string>)

  /**
   * A point action on an open crossing: `AddOutPt(e, pt)`, and then, when
   * `clear` holds, the edge leaves its fragment.  A failed point ends the
   * step with the state it left.
   */
  ghost predicate PointCleared(env: Collaborators, e: int, pt: IntPoint, clear: bool, before: Snapshot, t: OutputTrace)
  {
    PointAddedWhen(env, true, e, pt, before, t.m1, t.r1) &&
    match t.r1
    case Failure(_) => t.res.Failure? && t.after == t.m1
    case Success(_) =>
      t.res.Success? && 0 <= e < |t.m1.edges| &&
      t.after == if clear then t.m1.(edges := t.m1.edges[e := t.m1.edges[e].(OutIdx := UNASSIGNED)]) else t.m1
  }

  /**
   * The middle actions of a closed crossing: `pt` goes onto the first
   * edge's fragment when `first` holds and then onto the second's when
   * `second` holds, and the two edges exchange sides and fragment indexes.
   * A failed point ends the step with the state it left.
   */
  ghost predicate PointsSwapped(env: Collaborators, e1: int, e2: int, pt: IntPoint, first: bool, second: bool, before: Snapshot, t: OutputTrace)
  {
    PointAddedWhen(env, first, e1, pt, before, t.m1, t.r1) &&
    match first && t.r1.Failure?
    case true => t.res.Failure? && t.after == t.m1
    case false => |t.m1.edges| == |before.edges| && SecondSwapped(env, e1, e2, pt, second, t)
  }

  /**
   * The rest of `PointsSwapped` from `t.m1`: `pt` is added to the second
   * fragment when `second` holds, and unless that fails the edges exchange
   * sides and fragment indexes.
   */
  ghost predicate SecondSwapped(env: Collaborators, e1: int, e2: int, pt: IntPoint, second: bool, t: OutputTrace)
  {
    PointAddedWhen(env, second, e2, pt, t.m1, t.m2, t.r2) &&
    match second && t.r2.Failure?
    case true => t.res.Failure? && t.after == t.m2
    case false =>
      t.res.Success? && |t.m2.edges| == |t.m1.edges| && 0 <= e1 < |t.m2.edges| && 0 <= e2 < |t.m2.edges| &&
      t.after == t.m2.(edges := PolyIndexesSwapped(SidesSwapped(t.m2.edges, e1, e2), e1, e2))
  }

  /**
   * The output step of a crossing with an open edge, action by action (see
   * `OpenCrossing`): nothing; both fragments closed at a maximum
   * (`LocalMaxClosed`); or a point on one edge (`PointCleared`).
   */
  ghost predicate OpenStepDone(env: Collaborators, ael: seq<int>, e1: int, e2: int, pt: IntPoint, a: OpenAction, before: Snapshot, t: OutputTrace)
  {
    0 <= e1 < |before.edges| && 0 <= e2 < |before.edges| && OutputOk(before.pts, before.recs, before.rings, before.owner) &&
    (forall i :: 0 <= i < |ael| ==> 0 <= ael[i] < |before.edges|) &&
    match a
    case OpenNothing => t.res.Success? && t.after == before
    case OpenMax => LocalMaxClosed(env, ael, e1, e2, pt, before, t.m1, t.r1, t.m2, t.r2, t.after, t.res)
    case PointOnFirst(clear) => PointCleared(env, e1, pt, clear, before, t)
    case PointOnSecond(clear) => PointCleared(env, e2, pt, clear, before, t)
  }

  /**
   * The output step of a crossing of two closed edges, action by action
   * (see `ClosedCrossing`): nothing; an exchange of sides only; both
   * fragments closed at a maximum (`LocalMaxClosed`); a fragment started at
   * a minimum (`LocalMinAdded`, the only action that records a join); or
   * points and an exchange (`PointsSwapped`).
   */
  ghost predicate ClosedStepDone(env: Collaborators, ael: seq<int>, e1: int, e2: int, pt: IntPoint, a: ClosedAction, before: Snapshot,
    t: OutputTrace, joins: seq<Join>, joins2: seq<Join>)
  {
    0 <= e1 < |before.edges| && 0 <= e2 < |before.edges| && OutputOk(before.pts, before.recs, before.rings, before.owner) &&
    LinksInRange(before.edges) && (forall i :: 0 <= i < |ael| ==> 0 <= ael[i] < |before.edges|) &&
    match a
    case ClosedNothing => t.res.Success? && t.after == before && joins2 == joins
    case SidesOnly => t.res.Success? && t.after == before.(edges := SidesSwapped(before.edges, e1, e2)) && joins2 == joins
    case AtLocalMax => LocalMaxClosed(env, ael, e1, e2, pt, before, t.m1, t.r1, t.m2, t.r2, t.after, t.res) && joins2 == joins
    case AtLocalMin =>
      LocalMinAdded(env, e1, e2, pt, before, t.m1, t.r1, t.m2, t.r2, t.after, joins, joins2, t.started) &&
      (t.res.Success? <==> t.started.Success?)
    case PointOnBoth => PointsSwapped(env, e1, e2, pt, true, true, before, t) && joins2 == joins
    case PointOnFirstOnly => PointsSwapped(env, e1, e2, pt, true, false, before, t) && joins2 == joins
    case PointOnSecondOnly => PointsSwapped(env, e1, e2, pt, false, true, before, t) && joins2 == joins
  }

  /**
   * The output step of a crossing, keyed by its decision (see `Decide`):
   * `OpenStepDone` for a crossing with an open edge, `ClosedStepDone` for two
   * closed edges; `before` holds the arena after any count update.
   */
  ghost predicate CrossingDone(env: Collaborators, ael: seq<int>, e1: int, e2: int, pt: IntPoint, act: Crossing, before: Snapshot,
    t: OutputTrace, joins: seq<Join>, joins2: seq<Join>)
  {
    match act
    case Open(a) => OpenStepDone(env, ael, e1, e2, pt, a, before, t) && joins2 == joins
    case Closed(a) => ClosedStepDone(env, ael, e1, e2, pt, a, before, t, joins, joins2)
  }

  /** A crossing that decides nothing, or only an exchange of sides, adds no output. */
  lemma QuietCrossingKeepsOutput(env: Collaborators, ael: seq<int>, e1: int, e2: int, pt: IntPoint, act: Crossing, before: Snapshot,
    t: OutputTrace, joins: seq<Join>, joins2: seq<Join>)
    requires CrossingDone(env, ael, e1, e2, pt, act, before, t, joins, joins2)
    ensures act == Open(OpenNothing) || act == Closed(ClosedNothing) || act == Closed(SidesOnly) ==>
      t.after.pts == before.pts && t.after.recs == before.recs && joins2 == joins
  {
  }

  /**
   * The AEL membership `ProcessHorizontal` ends with: the run's current
   * horizontal `horz` stood in for `horz0` (`mid`), and the end of the run
   * took `horz` and `pair` off and put `succ` on (`fin`).
   */
  lemma RunMembers(start: seq<int>, mid: seq<int>, fin: seq<int>, horz0: int, horz: int, pair: int, succ: int)
    requires forall x :: x in mid <==> (x in start && x != horz0) || x == horz
    requires horz != horz0 ==> horz !in start
    requires succ != horz
    requires forall x :: x in fin <==> (x in mid && x != horz && x != pair) || (x == succ && x != NULL)
    ensures forall x :: x in fin <==> (x in start && x != horz0 && x != pair) || (x == succ && x != NULL)
  {
  }

  /** Dropping from a list without repeats leaves a list without repeats. */
  lemma DroppedDistinct(order: seq<int>, e: int, drop: bool)
    requires Distinct(order)
    ensures Distinct(Dropped(order, e, drop))
  {
    if drop && e in order {
      var p := IndexOf(order, e);
      var d := Dropped(order, e, drop);
      forall i, j | 0 <= i < j < |d|
        ensures d[i] != d[j]
      {
        var i2, j2 := if i < p then i else i + 1, if j < p then j else j + 1;
        assert d[i] == order[i2] && d[j] == order[j2];
      }
    }
  }

  /** Dropping two different members of a list without repeats removes exactly those two. */
  lemma DroppedBoth(order: seq<int>, a: int, b: int)
    requires Distinct(order) && a in order && b in order && a != b
    ensures forall x :: x in Dropped(Dropped(order, a, true), b, true) <==> x in order && x != a && x != b
  {
    DroppedDistinct(order, a, true);
    var d := Dropped(order, a, true);
    DroppedMembers(order, a, b);
    forall x
      ensures x in Dropped(d, b, true) <==> x in order && x != a && x != b
    {
      DroppedMembers(order, a, x);
      DroppedMembers(d, b, x);
    }
  }

  /** Overwriting position `p` of a list without repeats swaps exactly that member for `n`. */
  lemma ReplacedMembers(order: seq<int>, p: int, n: int)
    requires Distinct(order) && 0 <= p < |order|
    ensures forall x :: x in order[p := n] <==> (x in order && x != order[p]) || x == n
  {
    forall x
      ensures x in order[p := n] <==> (x in order && x != order[p]) || x == n
    {
      if x in order && x != order[p] {
        var i := IndexOf(order, x);
        assert order[p := n][i] == x;
      }
      if x == n {
        assert order[p := n][p] == n;
      }
      if x in order[p := n] && x != n {
        var i :| 0 <= i < |order| && order[p := n][i] == x;
        assert i != p && order[i] == x;
        assert order[i] != order[p];
      }
    }
  }

  /**
   * Exchanging the members at positions `p` and `q` of a list without
   * repeats keeps its members, moves the one at `p` to `q` and leaves every
   * other position alone.
   */
  lemma SwapMembers(order: seq<int>, p: int, q: int)
    requires Distinct(order) && 0 <= p < |order| && 0 <= q < |order| && p != q
    ensures IndexOf(order, order[p]) == p && IndexOf(order, order[q]) == q
    ensures var s := order[p := order[q]][q := order[p]];
      Distinct(s) && (forall x :: x in s <==> x in order) && IndexOf(s, order[p]) == q &&
      forall i :: i != p && i != q ==> At(s, i) == At(order, i)
  {
    IndexOfUnique(order, order[p], p);
    IndexOfUnique(order, order[q], q);
    var s := order[p := order[q]][q := order[p]];
    forall x
      ensures x in s <==> x in order
    {
      if x in order {
        var i := IndexOf(order, x);
        var j := if i == p then q else if i == q then p else i;
        assert s[j] == x;
      }
      if x in s {
        var i :| 0 <= i < |s| && s[i] == x;
        var j := if i == p then q else if i == q then p else i;
        assert order[j] == x;
      }
    }
    IndexOfUnique(s, order[p], q);
  }

  /** The arena after `IntersectEdges` writes the crossed counts of two closed edges. */
  function Counted(edges: seq<TEdge>, e1: int, e2: int, clipFill: PolyFillType, subjFill: PolyFillType): (r: seq<TEdge>)
    requires 0 <= e1 < |edges| && 0 <= e2 < |edges| && e1 != e2
    ensures AllLinksSame(edges, r)
    ensures r[e1] == CrossedCounts(edges[e1], edges[e2], clipFill, subjFill).0
    ensures r[e2] == CrossedCounts(edges[e1], edges[e2], clipFill, subjFill).1
    ensures forall x :: 0 <= x < |edges| && x != e1 && x != e2 ==> r[x] == edges[x]
  {
    var c := CrossedCounts(edges[e1], edges[e2], clipFill, subjFill);
    edges[e1 := c.0][e2 := c.1]
  }

  /**
   * When the two edges, now in the opposite order, cross back, the arena
   * is restored, provided their counts are in the engine's form.
   */
  lemma CountedTwice(edges: seq<TEdge>, e1: int, e2: int, clipFill: PolyFillType, subjFill: PolyFillType)
    requires 0 <= e1 < |edges| && 0 <= e2 < |edges| && e1 != e2
    requires CountsInForm(edges[e1], clipFill, subjFill) && CountsInForm(edges[e2], clipFill, subjFill)
    ensures Counted(Counted(edges, e1, e2, clipFill, subjFill), e2, e1, clipFill, subjFill) == edges
  {
    CrossingBackRestores(edges[e1], edges[e2], clipFill, subjFill);
    var r := Counted(Counted(edges, e1, e2, clipFill, subjFill), e2, e1, clipFill, subjFill);
    assert r[e1] == edges[e1] && r[e2] == edges[e2];
    assert forall x :: 0 <= x < |edges| ==> r[x] == edges[x];
  }

  /** Two different members of a list of two or more are not refused by `swapPositionsInAEL`. */
  lemma ActiveNotRefused(edges: seq<TEdge>, activeEdges: int, ael: seq<int>, e1: int, e2: int)
    requires Linked(edges, AEL, activeEdges, ael) && e1 in ael && e2 in ael && e1 != e2
    ensures !Refuses(edges[e1], AEL) && !Refuses(edges[e2], AEL)
  {
    var p1, p2 := IndexOf(ael, e1), IndexOf(ael, e2);
    assert |ael| >= 2;
    MemberLinks(edges, AEL, ael, p1);
    MemberLinks(edges, AEL, ael, p2);
  }

  /** Every node pairs two different edges. */
  predicate Proper(nodes: seq<IntersectNode>)
  {
    forall i :: 0 <= i < |nodes| ==> nodes[i].Edge1 != nodes[i].Edge2
  }

  /** The nodes the bubble sort records pair two different members of the list. */
  lemma InversionsProper(edges: seq<TEdge>, order: seq<int>, nodes: seq<IntersectNode>)
    requires Inversions(edges, order, nodes)
    ensures AllIn(nodes, order) && Proper(nodes)
  {
    forall k | 0 <= k < |nodes|
      ensures NodeIn(nodes[k], order) && nodes[k].Edge1 != nodes[k].Edge2
    {
      assert Inverted(edges, Replay(order, nodes[..k]), nodes[k]);
      ReplayKeeps(order, nodes[..k], nodes[k].Edge1);
      ReplayKeeps(order, nodes[..k], nodes[k].Edge2);
    }
  }

  /** The list `BuildIntersectList` builds from an empty one can be replayed on the AEL and pairs different edges. */
  lemma BubbledNodes(geo: Geometry, topY: int, ael: seq<int>, before: seq<TEdge>, after: seq<TEdge>, list: seq<IntersectNode>)
    requires Bubbled(geo, topY, ael, before, after, [], list)
    ensures AllIn(list, ael) && Proper(list) && Playable(ael, list)
  {
    assert list[0..] == list;
    InversionsProper(after, ael, list);
  }

  /** Every member of `now` is a member of `before`. */
  ghost predicate Among(now: seq<int>, before: seq<int>)
  {
    forall x :: x in now ==> x in before
  }

  /**
   * The order the crossings are processed in: the built list itself, or a
   * rearrangement of it in which each node joins two neighbours of the AEL
   * as the earlier nodes left it.
   */
  ghost predicate Rearranged(ael: seq<int>, built: seq<IntersectNode>, nodes: seq<IntersectNode>)
  {
    nodes == built || (multiset(nodes) == multiset(built) && AdjacentSteps(ael, nodes))
  }

  /**
   * Processing the crossings in either order of `Rearranged` leaves the AEL
   * in ascending order of the edges' X at the top of the scanbeam.
   */
  lemma ProcessedSorted(geo: Geometry, topY: int, ael: seq<int>, before: seq<TEdge>, after: seq<TEdge>,
                        built: seq<IntersectNode>, nodes: seq<IntersectNode>)
    requires Bubbled(geo, topY, ael, before, after, [], built) && Distinct(ael)
    requires Playable(ael, nodes) && Rearranged(ael, built, nodes)
    ensures InArena(after, Replay(ael, nodes)) && SortedByX(after, Replay(ael, nodes))
  {
    assert built[0..] == built;
    if nodes != built {
      RearrangedSorted(after, ael, built, nodes);
    }
  }

  /** The repaired list holds nodes of the list it started from, and can be replayed when the repair went through. */
  lemma FixedUpNodes(ael: seq<int>, before: seq<IntersectNode>, after: seq<IntersectNode>, ok: bool, sel: seq<int>)
    requires FixedUp(ael, before, after, ok, sel) && AllIn(before, ael) && Proper(before)
    ensures |after| == |before| && Within(after, before) && Proper(after)
    ensures ok ==> Playable(ael, after)
  {
    SortedAllIn(before, ael);
    var s := SortNodes(before);
    assert |s| == |before| by {
      assert |multiset(s)| == |multiset(before)|;
    }
    forall m | 0 <= m < |after|
      ensures after[m] in before
    {
      assert after[m] in s;
      assert after[m] in multiset(s);
    }
    if ok {
      assert after[..|after|] == after;
    }
  }

  /** The polygons `BuildResult` collects from the records `recs`: each non-null export, in record order. */
  function Exported(exportRec: (seq<OutPt>, OutRec) -> Option<seq<IntPoint>>, pts: seq<OutPt>, recs: seq<OutRec>): (r: seq<seq<IntPoint>>)
    ensures |r| <= |recs|
  {
    if recs == [] then []
    else
      Exported(exportRec, pts, recs[..|recs| - 1]) +
      match exportRec(pts, recs[|recs| - 1]) case Some(p) => [p] case None => []
  }

  /**
   * The collected polygons are exactly the non-null exports: each is some
   * record's export, and when no export is null there is one per record,
   * in record order.
   */
  lemma {:induction false} ExportedExactly(exportRec: (seq<OutPt>, OutRec) -> Option<seq<IntPoint>>, pts: seq<OutPt>, recs: seq<OutRec>)
    ensures forall p :: p in Exported(exportRec, pts, recs) ==> exists s :: 0 <= s < |recs| && exportRec(pts, recs[s]) == Some(p)
    ensures (forall s :: 0 <= s < |recs| ==> exportRec(pts, recs[s]).Some?) ==>
      |Exported(exportRec, pts, recs)| == |recs| &&
      forall s :: 0 <= s < |recs| ==> exportRec(pts, recs[s]) == Some(Exported(exportRec, pts, recs)[s])
    decreases |recs|
  {
    if recs != [] {
      var init := recs[..|recs| - 1];
      ExportedExactly(exportRec, pts, init);
      forall p | p in Exported(exportRec, pts, recs)
        ensures exists s :: 0 <= s < |recs| && exportRec(pts, recs[s]) == Some(p)
      {
        if p in Exported(exportRec, pts, init) {
          var s :| 0 <= s < |init| && exportRec(pts, init[s]) == Some(p);
          assert recs[s] == init[s];
        } else {
          assert exportRec(pts, recs[|recs| - 1]) == Some(p);
        }
      }
      if forall s :: 0 <= s < |recs| ==> exportRec(pts, recs[s]).Some? {
        assert forall s :: 0 <= s < |init| ==> init[s] == recs[s];
      }
    }
  }

  // ---------------------------------------------------------------------
  // What the crossing and output steps keep
  // ---------------------------------------------------------------------

  /** `AddOutPt` writes at most the edge's fragment index, so no edge's shape changes. */
  lemma OutPtAddedKeepsBounds(env: Collaborators, edges: seq<TEdge>, pts: seq<OutPt>, recs: seq<OutRec>, rings: seq<seq<int>>, owner: seq<int>,
    e: int, pt: IntPoint,
    edges2: seq<TEdge>, pts2: seq<OutPt>, recs2: seq<OutRec>, rings2: seq<seq<int>>, owner2: seq<int>, res: Result<int, string>)
    requires OutputOk(pts, recs, rings, owner) && 0 <= e < |edges|
    requires OutPtAdded(env, edges, pts, recs, rings, owner, e, pt, edges2, pts2, recs2, rings2, owner2, res)
    ensures BoundsKept(edges, edges2)
  {
  }

  /** `AppendPolygon` writes only fragment indexes and sides, so no edge's shape changes. */
  lemma AppendedKeepsBounds(env: Collaborators, edges: seq<TEdge>, pts: seq<OutPt>, recs: seq<OutRec>, rings: seq<seq<int>>, owner: seq<int>,
    ael: seq<int>, e1: int, e2: int,
    edges2: seq<TEdge>, pts2: seq<OutPt>, recs2: seq<OutRec>, rings2: seq<seq<int>>, owner2: seq<int>, res: Result<(), string>)
    requires OutputOk(pts, recs, rings, owner) && 0 <= e1 < |edges| && 0 <= e2 < |edges|
    requires forall i :: 0 <= i < |ael| ==> 0 <= ael[i] < |edges|
    requires Appended(env, edges, pts, recs, rings, owner, ael, e1, e2, edges2, pts2, recs2, rings2, owner2, res)
    ensures BoundsKept(edges, edges2)
  {
    if res.Success? {
      var cleared := edges[e1 := edges[e1].(OutIdx := NULL)][e2 := edges[e2].(OutIdx := NULL)];
      assert forall x :: 0 <= x < |edges| ==> ShapeOf(cleared[x]) == ShapeOf(edges[x]);
    }
  }

  /** `AddLocalMaxPoly` keeps every edge's shape. */
  lemma LocalMaxKeepsBounds(env: Collaborators, ael: seq<int>, e1: int, e2: int, pt: IntPoint,
    before: Snapshot, m1: Snapshot, r1: Result<int, string>, m2: Snapshot, r2: Result<int, string>, after: Snapshot, res: Result<(), string>)
    requires OutputOk(before.pts, before.recs, before.rings, before.owner)
    requires 0 <= e1 < |before.edges| && 0 <= e2 < |before.edges| && forall i :: 0 <= i < |ael| ==> 0 <= ael[i] < |before.edges|
    requires LocalMaxClosed(env, ael, e1, e2, pt, before, m1, r1, m2, r2, after, res)
    ensures BoundsKept(before.edges, after.edges)
  {
    OutPtAddedKeepsBounds(env, before.edges, before.pts, before.recs, before.rings, before.owner, e1, pt,
      m1.edges, m1.pts, m1.recs, m1.rings, m1.owner, r1);
    if r1.Success? && m1.edges[e2].WindDelta == 0 {
      OutPtAddedKeepsBounds(env, m1.edges, m1.pts, m1.recs, m1.rings, m1.owner, e2, pt, m2.edges, m2.pts, m2.recs, m2.rings, m2.owner, r2);
    }
    if r2.Success? {
      var s1, s2 := m2.edges[e1].OutIdx, m2.edges[e2].OutIdx;
      if s1 < s2 {
        AppendedKeepsBounds(env, m2.edges, m2.pts, m2.recs, m2.rings, m2.owner, ael, e1, e2,
          after.edges, after.pts, after.recs, after.rings, after.owner, res);
      } else if s2 < s1 {
        AppendedKeepsBounds(env, m2.edges, m2.pts, m2.recs, m2.rings, m2.owner, ael, e2, e1,
          after.edges, after.pts, after.recs, after.rings, after.owner, res);
      }
    }
  }

  /** `AddLocalMinPoly` keeps every edge's shape. */
  lemma LocalMinKeepsBounds(env: Collaborators, e1: int, e2: int, pt: IntPoint,
    before: Snapshot, m0: Snapshot, r1: Result<int, string>, m: Snapshot, r2: Result<int, string>, after: Snapshot,
    joins: seq<Join>, joins2: seq<Join>, res: Result<int, string>)
    requires OutputOk(before.pts, before.recs, before.rings, before.owner) && LinksInRange(before.edges)
    requires 0 <= e1 < |before.edges| && 0 <= e2 < |before.edges|
    requires LocalMinAdded(env, e1, e2, pt, before, m0, r1, m, r2, after, joins, joins2, res)
    ensures BoundsKept(before.edges, after.edges)
  {
    var lead := MinLead(before.edges, e1, e2);
    OutPtAddedKeepsBounds(env, before.edges, before.pts, before.recs, before.rings, before.owner, lead, pt,
      m0.edges, m0.pts, m0.recs, m0.rings, m0.owner, r1);
    if r1.Success? {
      var other := if lead == e1 then e2 else e1;
      var prevE := MinPrev(m.edges, lead, other);
      if JoinsAtMin(env.geo, m.edges, lead, prevE, pt) {
        OutPtAddedKeepsBounds(env, m.edges, m.pts, m.recs, m.rings, m.owner, prevE, pt,
          after.edges, after.pts, after.recs, after.rings, after.owner, r2);
      }
    }
  }

  /** `UpdateEdgeIntoAEL` writes the successor's state and AEL links only, so no edge's shape changes. */
  lemma ReplacedKeepsBounds(edges: seq<TEdge>, e: int, r: seq<TEdge>)
    requires 0 <= e < |edges| && Replaced(edges, e, r)
    ensures BoundsKept(edges, r)
  {
  }
}
