/**
 * `SetWindingCount` (clipper.ts): the winding counts an edge takes when it
 * enters the Active Edge List.
 *
 * `WindCnt` is the winding number of the edge's own polygon set just right
 * of the edge, `WindCnt2` that of the other set.  The edge reads them off
 * the nearest earlier edge of its own set that is closed (non-zero
 * `WindDelta`), then adds up the other set's edges between that edge and
 * itself.
 *
 * The AEL is described by its ghost `order` (member indices from head to
 * tail); `p` is the entering edge's position in it.
 */
module ClipperWinding {
  import opened ClipperEdge
  import opened ClipperIntersect

  /** An edge that the backward search of `SetWindingCount` stops at: of polygon set `t` and closed. */
  predicate Counts(e: TEdge, t: PolyType)
  {
    e.PolyTyp == t && e.WindDelta != 0
  }

  /**
   * The position of the nearest edge before position `p` that `Counts` for
   * `t`, or -1 when there is none (the first loop of `SetWindingCount`).
   */
  function LastSameType(edges: seq<TEdge>, order: seq<int>, p: int, t: PolyType): (j: int)
    requires InArena(edges, order) && 0 <= p <= |order|
    ensures -1 <= j < p
    ensures j >= 0 ==> Counts(edges[order[j]], t)
    ensures forall k :: j < k < p ==> !Counts(edges[order[k]], t)
    decreases p
  {
    if p == 0 then -1
    else if Counts(edges[order[p - 1]], t) then p - 1
    else LastSameType(edges, order, p - 1, t)
  }

  /** How many edges at positions `lo` up to (not including) `hi` count for `t`. */
  function SameTypeIn(edges: seq<TEdge>, order: seq<int>, lo: int, hi: int, t: PolyType): (n: nat)
    requires InArena(edges, order) && 0 <= lo <= hi <= |order|
    decreases hi - lo
  {
    if lo == hi then 0
    else (if Counts(edges[order[lo]], t) then 1 else 0) + SameTypeIn(edges, order, lo + 1, hi, t)
  }

  /** How many closed edges sit at positions `lo` up to (not including) `hi`. */
  function ClosedIn(edges: seq<TEdge>, order: seq<int>, lo: int, hi: int): (n: nat)
    requires InArena(edges, order) && 0 <= lo <= hi <= |order|
    decreases hi
  {
    if lo == hi then 0
    else ClosedIn(edges, order, lo, hi - 1) + (if edges[order[hi - 1]].WindDelta != 0 then 1 else 0)
  }

  /** The sum of `WindDelta` over positions `lo` up to (not including) `hi`. */
  function SumDeltas(edges: seq<TEdge>, order: seq<int>, lo: int, hi: int): int
    requires InArena(edges, order) && 0 <= lo <= hi <= |order|
    decreases hi
  {
    if lo == hi then 0 else SumDeltas(edges, order, lo, hi - 1) + edges[order[hi - 1]].WindDelta
  }

  /**
   * `IsEvenOddAltFillType`: the other polygon set is filled even-odd, so
   * `WindCnt2` is a parity.
   */
  predicate IsEvenOddAlt(edge: TEdge, clipFill: PolyFillType, subjFill: PolyFillType)
  {
    OtherFill(edge, clipFill, subjFill) == EvenOdd
  }

  /**
   * One step of the `WindCnt2` loop over an edge `e`: toggle between 0 and
   * 1 for a closed edge under even-odd, else add its `WindDelta`.
   */
  function Step(alt: bool, wc2: int, e: TEdge): int
  {
    if !alt then wc2 + e.WindDelta
    else if e.WindDelta != 0 then (if wc2 == 0 then 1 else 0)
    else wc2
  }

  /** The `WindCnt2` loop from position `from` up to the edge at `p`, starting from `wc2`. */
  function Accumulate(edges: seq<TEdge>, order: seq<int>, from: int, p: int, alt: bool, wc2: int): int
    requires InArena(edges, order) && 0 <= from <= p <= |order|
    decreases p - from
  {
    if from == p then wc2 else Accumulate(edges, order, from + 1, p, alt, Step(alt, wc2, edges[order[from]]))
  }

  /** Where the `WindCnt2` loop starts and the counts it starts from. */
  datatype WindStart = WindStart(wc: int, wc2: int, from: int)

  /**
   * `WindCnt` for an edge `edge` whose nearest earlier closed edge of the
   * same set is `e`; `parity` is 1 when an odd number of same-set closed
   * edges precede `e`, else 0:
   * - an open edge when the operation is not a union: 1;
   * - even-odd own fill: a closed edge takes its `WindDelta`, an open one
   *   the parity;
   * - otherwise the non-zero table: when `e` steps its count towards zero
   *   the edge starts from `e`'s count (keeping it when the two run in
   *   opposite directions, else adding its own delta), or from scratch when
   *   that count was a unit; when `e` steps away from zero an open edge goes
   *   one further, a reversing edge keeps `e`'s count, and a same-direction
   *   edge adds its delta.
   */
  function WindAfter(e: TEdge, edge: TEdge, clipType: ClipType, clipFill: PolyFillType, subjFill: PolyFillType, parity: int): int
  {
    if edge.WindDelta == 0 && clipType != Union then 1
    else if OwnFill(edge, clipFill, subjFill) == EvenOdd then
      (if edge.WindDelta != 0 then edge.WindDelta else parity)
    else if e.WindCnt * e.WindDelta < 0 then
      if e.WindCnt > 1 || e.WindCnt < -1 then
        (if e.WindDelta * edge.WindDelta < 0 then e.WindCnt else e.WindCnt + edge.WindDelta)
      else if edge.WindDelta == 0 then 1 else edge.WindDelta
    else if edge.WindDelta == 0 then (if e.WindCnt < 0 then e.WindCnt - 1 else e.WindCnt + 1)
    else if e.WindDelta * edge.WindDelta < 0 then e.WindCnt
    else e.WindCnt + edge.WindDelta
  }

  /**
   * The first phase of `SetWindingCount` for the edge at position `p`, with
   * `j` the nearest earlier closed edge of the same set: without one,
   * `WindCnt` is the edge's own `WindDelta` (1 for an open edge) and
   * `WindCnt2` starts at 0 from the head of the list; with one, `WindCnt`
   * is `WindAfter` and `WindCnt2` starts from `j`'s, just after `j`.
   */
  function FirstPhase(edges: seq<TEdge>, order: seq<int>, p: int, clipType: ClipType, clipFill: PolyFillType, subjFill: PolyFillType): (w: WindStart)
    requires InArena(edges, order) && 0 <= p < |order|
    ensures 0 <= w.from <= p
  {
    var edge := edges[order[p]];
    var j := LastSameType(edges, order, p, edge.PolyTyp);
    if j < 0 then
      WindStart(if edge.WindDelta == 0 then 1 else edge.WindDelta, 0, 0)
    else
      var e := edges[order[j]];
      var parity := if SameTypeIn(edges, order, 0, j, e.PolyTyp) % 2 == 0 then 0 else 1;
      WindStart(WindAfter(e, edge, clipType, clipFill, subjFill, parity), e.WindCnt2, j + 1)
  }

  /** The `WindCnt` and `WindCnt2` that `SetWindingCount` gives the edge at position `p`. */
  function WindingCounts(edges: seq<TEdge>, order: seq<int>, p: int, clipType: ClipType, clipFill: PolyFillType, subjFill: PolyFillType): (int, int)
    requires InArena(edges, order) && 0 <= p < |order|
  {
    var w := FirstPhase(edges, order, p, clipType, clipFill, subjFill);
    (w.wc, Accumulate(edges, order, w.from, p, IsEvenOddAlt(edges[order[p]], clipFill, subjFill), w.wc2))
  }

  // ---------------------------------------------------------------------
  // The loops
  // ---------------------------------------------------------------------

  /**
   * `SetWindingCount(edge)` on the arena: the three pointer walks of the
   * source (back to the nearest same-set closed edge, back to the head for
   * the even-odd parity, forward to the edge for `WindCnt2`); only the
   * edge's two counts change, to `WindingCounts`.
   */
  method SetWinding(edges: seq<TEdge>, edge: int, activeEdges: int, ghost order: seq<int>,
                    clipType: ClipType, clipFill: PolyFillType, subjFill: PolyFillType)
    returns (r: seq<TEdge>, ghost p: int)
    requires Linked(edges, AEL, activeEdges, order) && edge in order
    ensures 0 <= p < |order| && order[p] == edge && InArena(edges, order)
    ensures r == edges[edge := edges[edge].(WindCnt := WindingCounts(edges, order, p, clipType, clipFill, subjFill).0,
                                            WindCnt2 := WindingCounts(edges, order, p, clipType, clipFill, subjFill).1)]
  {
    p := IndexOf(order, edge);
    var e, j := BackToSameType(edges, edge, order, p);
    var wc, wc2, next := StartCounts(edges, edge, activeEdges, e, order, p, j, clipType, clipFill, subjFill);
    wc2 := WindCnt2Loop(edges, edge, next, order, j + 1, p, IsEvenOddAlt(edges[edge], clipFill, subjFill), wc2);
    r := edges[edge := edges[edge].(WindCnt := wc, WindCnt2 := wc2)];
  }

  /** The first loop: back from `edge` (at `p`) to the nearest earlier closed edge of its set, or null. */
  method BackToSameType(edges: seq<TEdge>, edge: int, ghost order: seq<int>, ghost p: int) returns (e: int, ghost j: int)
    requires Chain(edges, AEL, order) && 0 <= p < |order| && order[p] == edge
    ensures j == LastSameType(edges, order, p, edges[edge].PolyTyp) && e == At(order, j)
  {
    var cur := edges[edge];
    e := cur.PrevInAEL;
    j := p - 1;
    while e != NULL && (edges[e].PolyTyp != cur.PolyTyp || edges[e].WindDelta == 0)
      invariant -1 <= j < p && e == At(order, j)
      invariant forall k :: j < k < p ==> !Counts(edges[order[k]], cur.PolyTyp)
      decreases j
    {
      e := edges[e].PrevInAEL;
      j := j - 1;
    }
    LastSameTypeUnique(edges, order, p, cur.PolyTyp, j);
  }

  /**
   * The decision table after the first loop, given the edge `e` it stopped
   * at (position `j`): the starting counts, and the edge the `WindCnt2` loop
   * starts from.
   */
  method StartCounts(edges: seq<TEdge>, edge: int, activeEdges: int, e: int, ghost order: seq<int>, ghost p: int, ghost j: int,
                     clipType: ClipType, clipFill: PolyFillType, subjFill: PolyFillType)
    returns (wc: int, wc2: int, next: int)
    requires Linked(edges, AEL, activeEdges, order) && 0 <= p < |order| && order[p] == edge
    requires j == LastSameType(edges, order, p, edges[edge].PolyTyp) && e == At(order, j)
    ensures FirstPhase(edges, order, p, clipType, clipFill, subjFill) == WindStart(wc, wc2, j + 1)
    ensures next == order[j + 1]
  {
    var cur := edges[edge];
    if e == NULL {
      wc := if cur.WindDelta == 0 then 1 else cur.WindDelta;
      wc2 := 0;
      next := activeEdges;
    } else {
      var prev := edges[e];
      var parity := 0;
      if cur.WindDelta == 0 && clipType == Union && OwnFill(cur, clipFill, subjFill) == EvenOdd {
        parity := InsideParity(edges, e, order, j);
      }
      wc := WindAfter(prev, cur, clipType, clipFill, subjFill, parity);
      wc2 := prev.WindCnt2;
      next := prev.NextInAEL;
      ParityUnused(prev, cur, clipType, clipFill, subjFill, parity,
                   if SameTypeIn(edges, order, 0, j, prev.PolyTyp) % 2 == 0 then 0 else 1);
    }
  }

  /** `WindAfter` reads the parity only for an open edge of an even-odd set in a union. */
  lemma ParityUnused(e: TEdge, edge: TEdge, clipType: ClipType, clipFill: PolyFillType, subjFill: PolyFillType, x: int, y: int)
    requires edge.WindDelta == 0 && clipType == Union && OwnFill(edge, clipFill, subjFill) == EvenOdd ==> x == y
    ensures WindAfter(e, edge, clipType, clipFill, subjFill, x) == WindAfter(e, edge, clipType, clipFill, subjFill, y)
  {
  }

  /**
   * The `Inside` loop: walking back from the edge before `e` (at position
   * `j`) to the head, toggling at every edge of `e`'s set that is closed;
   * the result is 0 when the count is even (inside), else 1.
   */
  method InsideParity(edges: seq<TEdge>, e: int, ghost order: seq<int>, ghost j: int) returns (wc: int)
    requires Chain(edges, AEL, order) && 0 <= j < |order| && e == order[j]
    ensures wc == if SameTypeIn(edges, order, 0, j, edges[e].PolyTyp) % 2 == 0 then 0 else 1
  {
    var t := edges[e].PolyTyp;
    var inside := true;
    var e2 := edges[e].PrevInAEL;
    ghost var k := j - 1;
    while e2 != NULL
      invariant -1 <= k < j && e2 == At(order, k)
      invariant inside <==> SameTypeIn(edges, order, k + 1, j, t) % 2 == 0
      decreases k
    {
      if edges[e2].PolyTyp == t && edges[e2].WindDelta != 0 {
        inside := !inside;
      }
      e2 := edges[e2].PrevInAEL;
      k := k - 1;
    }
    wc := if inside then 0 else 1;
  }

  /**
   * The `WindCnt2` loops: from the edge `e` at position `from` forward to
   * `edge` at position `p`, toggling (even-odd other fill) or adding each
   * edge's `WindDelta`.
   */
  method WindCnt2Loop(edges: seq<TEdge>, edge: int, e: int, ghost order: seq<int>, ghost from: int, ghost p: int, alt: bool, wc2: int)
    returns (r: int)
    requires Chain(edges, AEL, order) && 0 <= from <= p < |order| && order[p] == edge && e == order[from]
    ensures r == Accumulate(edges, order, from, p, alt, wc2)
  {
    r := wc2;
    var cur := e;
    ghost var i := from;
    if alt {
      while cur != edge
        invariant from <= i <= p && cur == order[i]
        invariant Accumulate(edges, order, i, p, alt, r) == Accumulate(edges, order, from, p, alt, wc2)
        decreases p - i
      {
        if edges[cur].WindDelta != 0 {
          r := if r == 0 then 1 else 0;
        }
        cur := edges[cur].NextInAEL;
        i := i + 1;
      }
    } else {
      while cur != edge
        invariant from <= i <= p && cur == order[i]
        invariant Accumulate(edges, order, i, p, alt, r) == Accumulate(edges, order, from, p, alt, wc2)
        decreases p - i
      {
        r := r + edges[cur].WindDelta;
        cur := edges[cur].NextInAEL;
        i := i + 1;
      }
    }
  }

  // ---------------------------------------------------------------------
  // What the counts mean
  // ---------------------------------------------------------------------

  /** `LastSameType` is the only position with its two properties. */
  lemma LastSameTypeUnique(edges: seq<TEdge>, order: seq<int>, p: int, t: PolyType, j: int)
    requires InArena(edges, order) && 0 <= p <= |order| && -1 <= j < p
    requires j >= 0 ==> Counts(edges[order[j]], t)
    requires forall k :: j < k < p ==> !Counts(edges[order[k]], t)
    ensures LastSameType(edges, order, p, t) == j
  {
  }

  /** Without an even-odd other fill, the `WindCnt2` loop adds up the `WindDelta` it passes. */
  lemma {:induction false} AccumulateSums(edges: seq<TEdge>, order: seq<int>, from: int, p: int, wc2: int)
    requires InArena(edges, order) && 0 <= from <= p <= |order|
    ensures Accumulate(edges, order, from, p, false, wc2) == wc2 + SumDeltas(edges, order, from, p)
    decreases p - from
  {
    if from < p {
      AccumulateSums(edges, order, from + 1, p, wc2 + edges[order[from]].WindDelta);
      SumDeltasFront(edges, order, from, p);
    }
  }

  /** `SumDeltas` also peels off its first position. */
  lemma {:induction false} SumDeltasFront(edges: seq<TEdge>, order: seq<int>, lo: int, hi: int)
    requires InArena(edges, order) && 0 <= lo < hi <= |order|
    ensures SumDeltas(edges, order, lo, hi) == edges[order[lo]].WindDelta + SumDeltas(edges, order, lo + 1, hi)
    decreases hi
  {
    if lo + 1 < hi {
      SumDeltasFront(edges, order, lo, hi - 1);
    }
  }

  /** `ClosedIn` also peels off its first position. */
  lemma {:induction false} ClosedInFront(edges: seq<TEdge>, order: seq<int>, lo: int, hi: int)
    requires InArena(edges, order) && 0 <= lo < hi <= |order|
    ensures ClosedIn(edges, order, lo, hi) == (if edges[order[lo]].WindDelta != 0 then 1 else 0) + ClosedIn(edges, order, lo + 1, hi)
    decreases hi
  {
    if lo + 1 < hi {
      ClosedInFront(edges, order, lo, hi - 1);
    }
  }

  /**
   * Under an even-odd other fill the `WindCnt2` loop computes a parity:
   * when it passes no closed edge the start value is kept; otherwise the
   * result is the parity of the closed edges passed, counted from 0 or 1
   * according to whether the start value was zero.
   */
  lemma {:induction false} AccumulateToggles(edges: seq<TEdge>, order: seq<int>, from: int, p: int, wc2: int)
    requires InArena(edges, order) && 0 <= from <= p <= |order|
    ensures Accumulate(edges, order, from, p, true, wc2) ==
      if ClosedIn(edges, order, from, p) == 0 then wc2
      else ((if wc2 == 0 then 0 else 1) + ClosedIn(edges, order, from, p)) % 2
    decreases p - from
  {
    if from < p {
      var next := Step(true, wc2, edges[order[from]]);
      AccumulateToggles(edges, order, from + 1, p, next);
      ClosedInFront(edges, order, from, p);
    }
  }

  /**
   * When no earlier edge of the same set is closed, `WindCnt` is the edge's
   * own `WindDelta` (1 for an open edge) and `WindCnt2` accumulates over
   * every edge before it in the AEL: their `WindDelta` sum, or under an
   * even-odd other fill the parity of the closed ones.
   */
  lemma FirstOfItsSet(edges: seq<TEdge>, order: seq<int>, p: int, clipType: ClipType, clipFill: PolyFillType, subjFill: PolyFillType)
    requires InArena(edges, order) && 0 <= p < |order|
    requires LastSameType(edges, order, p, edges[order[p]].PolyTyp) == -1
    ensures WindingCounts(edges, order, p, clipType, clipFill, subjFill).0 ==
      if edges[order[p]].WindDelta == 0 then 1 else edges[order[p]].WindDelta
    ensures !IsEvenOddAlt(edges[order[p]], clipFill, subjFill) ==>
      WindingCounts(edges, order, p, clipType, clipFill, subjFill).1 == SumDeltas(edges, order, 0, p)
    ensures IsEvenOddAlt(edges[order[p]], clipFill, subjFill) ==>
      WindingCounts(edges, order, p, clipType, clipFill, subjFill).1 == ClosedIn(edges, order, 0, p) % 2
  {
    FirstStart(edges, order, p, clipType, clipFill, subjFill);
    if IsEvenOddAlt(edges[order[p]], clipFill, subjFill) {
      FirstParity(edges, order, p, clipType, clipFill, subjFill);
    } else {
      FirstSum(edges, order, p, clipType, clipFill, subjFill);
    }
  }

  /** Under an even-odd other fill, the first edge of its set takes the parity of the closed edges before it. */
  lemma FirstParity(edges: seq<TEdge>, order: seq<int>, p: int, clipType: ClipType, clipFill: PolyFillType, subjFill: PolyFillType)
    requires InArena(edges, order) && 0 <= p < |order|
    requires LastSameType(edges, order, p, edges[order[p]].PolyTyp) == -1
    requires IsEvenOddAlt(edges[order[p]], clipFill, subjFill)
    ensures WindingCounts(edges, order, p, clipType, clipFill, subjFill).1 == ClosedIn(edges, order, 0, p) % 2
  {
    FirstStart(edges, order, p, clipType, clipFill, subjFill);
    ParityFromZero(edges, order, p);
  }

  /** Toggling from 0 over the first `p` positions gives the parity of the closed edges among them. */
  lemma ParityFromZero(edges: seq<TEdge>, order: seq<int>, p: int)
    requires InArena(edges, order) && 0 <= p <= |order|
    ensures Accumulate(edges, order, 0, p, true, 0) == ClosedIn(edges, order, 0, p) % 2
  {
    AccumulateToggles(edges, order, 0, p, 0);
  }

  /** Otherwise the first edge of its set takes the sum of the deltas before it. */
  lemma FirstSum(edges: seq<TEdge>, order: seq<int>, p: int, clipType: ClipType, clipFill: PolyFillType, subjFill: PolyFillType)
    requires InArena(edges, order) && 0 <= p < |order|
    requires LastSameType(edges, order, p, edges[order[p]].PolyTyp) == -1
    requires !IsEvenOddAlt(edges[order[p]], clipFill, subjFill)
    ensures WindingCounts(edges, order, p, clipType, clipFill, subjFill).1 == SumDeltas(edges, order, 0, p)
  {
    FirstStart(edges, order, p, clipType, clipFill, subjFill);
    AccumulateSums(edges, order, 0, p, 0);
  }

  /** The first edge of its set starts from its own delta (1 when open) and a zero `WindCnt2`, at the head. */
  lemma FirstStart(edges: seq<TEdge>, order: seq<int>, p: int, clipType: ClipType, clipFill: PolyFillType, subjFill: PolyFillType)
    requires InArena(edges, order) && 0 <= p < |order|
    requires LastSameType(edges, order, p, edges[order[p]].PolyTyp) == -1
    ensures WindingCounts(edges, order, p, clipType, clipFill, subjFill) ==
      (if edges[order[p]].WindDelta == 0 then 1 else edges[order[p]].WindDelta,
       Accumulate(edges, order, 0, p, IsEvenOddAlt(edges[order[p]], clipFill, subjFill), 0))
  {
  }


  /**
   * Under an even-odd other fill `WindCnt2` only toggles between 0 and 1:
   * it ends in {0, 1} whenever it starts there (always so for the first
   * edge of its set), and otherwise whenever a closed edge is passed.
   */
  lemma AltWindCnt2Binary(edges: seq<TEdge>, order: seq<int>, p: int, clipType: ClipType, clipFill: PolyFillType, subjFill: PolyFillType)
    requires InArena(edges, order) && 0 <= p < |order|
    requires IsEvenOddAlt(edges[order[p]], clipFill, subjFill)
    ensures var w := FirstPhase(edges, order, p, clipType, clipFill, subjFill);
      var wc2 := WindingCounts(edges, order, p, clipType, clipFill, subjFill).1;
      (0 <= w.wc2 <= 1 || ClosedIn(edges, order, w.from, p) > 0 ==> 0 <= wc2 <= 1) &&
      (ClosedIn(edges, order, w.from, p) == 0 ==> wc2 == w.wc2)
  {
    var w := FirstPhase(edges, order, p, clipType, clipFill, subjFill);
    AccumulateToggles(edges, order, w.from, p, w.wc2);
  }

  /**
   * Outside even-odd own fill, and for a closed edge under it, `WindAfter`
   * is never zero when the deltas are unit steps and the preceding closed
   * edge has a non-zero count: a running winding number never lands on 0
   * at an edge that bounds its own set.
   */
  lemma WindAfterNonZero(e: TEdge, edge: TEdge, clipType: ClipType, clipFill: PolyFillType, subjFill: PolyFillType, parity: int)
    requires e.WindDelta == 1 || e.WindDelta == -1
    requires -1 <= edge.WindDelta <= 1 && e.WindCnt != 0
    requires OwnFill(edge, clipFill, subjFill) != EvenOdd || edge.WindDelta != 0
    ensures WindAfter(e, edge, clipType, clipFill, subjFill, parity) != 0
  {
  }

  /** Hence, with the same conditions on the AEL, `SetWindingCount` never gives such an edge a zero `WindCnt`. */
  lemma WindCntNonZero(edges: seq<TEdge>, order: seq<int>, p: int, clipType: ClipType, clipFill: PolyFillType, subjFill: PolyFillType)
    requires InArena(edges, order) && 0 <= p < |order|
    requires -1 <= edges[order[p]].WindDelta <= 1
    requires forall k :: 0 <= k < p && Counts(edges[order[k]], edges[order[p]].PolyTyp) ==>
      -1 <= edges[order[k]].WindDelta <= 1 && edges[order[k]].WindCnt != 0
    requires OwnFill(edges[order[p]], clipFill, subjFill) != EvenOdd || edges[order[p]].WindDelta != 0
    ensures WindingCounts(edges, order, p, clipType, clipFill, subjFill).0 != 0
  {
    var edge := edges[order[p]];
    var j := LastSameType(edges, order, p, edge.PolyTyp);
    if j >= 0 {
      var e := edges[order[j]];
      var parity := if SameTypeIn(edges, order, 0, j, e.PolyTyp) % 2 == 0 then 0 else 1;
      WindAfterNonZero(e, edge, clipType, clipFill, subjFill, parity);
    }
  }
}
