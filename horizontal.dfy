/**
 * The pure part of the walk of a horizontal edge across the AEL: the shape
 * the base class gives the bounds, the last horizontal of a run of them,
 * the maxima pair of an edge, and the neighbour in a direction.
 *
 * A bound is the chain of edges linked by `NextInLML`, climbing from a local
 * minimum to a local maximum.  The model names that shape with two ghost
 * maps over the arena: `rank` strictly falls along every `NextInLML` link
 * (so each chain ends), and `bound` is constant along it (so the edges of
 * one chain share a bound).  At most one edge of a bound is active at a
 * time.
 */
module ClipperHorizontal {
  import opened ClipperEdge

  /** `OutIdx` of an edge the base class marks as not to be output (`Skip`). */
  const SKIP: int := -2

  /** The bound facts about edge `x`: polygon neighbours other than itself, and a `NextInLML` step within the bound and down the rank. */
  ghost predicate BoundStep(edges: seq<TEdge>, rank: seq<nat>, bound: seq<int>, x: int)
    requires |rank| == |edges| && |bound| == |edges| && 0 <= x < |edges|
  {
    var e := edges[x];
    0 <= e.Next < |edges| && 0 <= e.Prev < |edges| && e.Next != x && e.Prev != x &&
    (e.NextInLML != NULL ==>
      0 <= e.NextInLML < |edges| && rank[e.NextInLML] < rank[x] && bound[e.NextInLML] == bound[x])
  }

  /** Every edge's polygon links and bound link have the shape the base class builds. */
  ghost predicate BoundsRanked(edges: seq<TEdge>, rank: seq<nat>, bound: seq<int>)
  {
    |rank| == |edges| && |bound| == |edges| &&
    forall x :: 0 <= x < |edges| ==> BoundStep(edges, rank, bound, x)
  }

  /** No two active edges lie on the same bound. */
  ghost predicate OnePerBound(ael: seq<int>, bound: seq<int>)
  {
    forall a, b :: a in ael && b in ael && 0 <= a < |bound| && 0 <= b < |bound| && bound[a] == bound[b] ==> a == b
  }

  ghost predicate BoundsOk(edges: seq<TEdge>, ael: seq<int>, rank: seq<nat>, bound: seq<int>)
  {
    BoundsRanked(edges, rank, bound) && OnePerBound(ael, bound)
  }

  /** Changes that keep every edge's geometry and links keep the bound shape. */
  lemma BoundsRankedKept(a: seq<TEdge>, b: seq<TEdge>, rank: seq<nat>, bound: seq<int>)
    requires BoundsRanked(a, rank, bound) && BoundsKept(a, b)
    ensures BoundsRanked(b, rank, bound)
  {
    forall x | 0 <= x < |b|
      ensures BoundStep(b, rank, bound, x)
    {
      assert BoundStep(a, rank, bound, x);
      assert ShapeOf(a[x]) == ShapeOf(b[x]);
    }
  }

  /** An AEL that only loses members keeps one edge per bound. */
  lemma OnePerBoundFewer(ael: seq<int>, ael2: seq<int>, bound: seq<int>)
    requires OnePerBound(ael, bound)
    requires forall x :: x in ael2 ==> x in ael
    ensures OnePerBound(ael2, bound)
  {
  }

  /** Replacing an active edge by another edge of its bound keeps one edge per bound. */
  lemma OnePerBoundReplaced(ael: seq<int>, ael2: seq<int>, bound: seq<int>, h: int, n: int)
    requires OnePerBound(ael, bound) && h in ael && 0 <= h < |bound| && 0 <= n < |bound| && bound[n] == bound[h]
    requires forall x :: x in ael2 <==> (x in ael && x != h) || x == n
    ensures OnePerBound(ael2, bound)
  {
  }

  /** The next edge of an active edge's bound is not itself active. */
  lemma SuccessorNotActive(edges: seq<TEdge>, ael: seq<int>, rank: seq<nat>, bound: seq<int>, x: int)
    requires BoundsOk(edges, ael, rank, bound) && x in ael && 0 <= x < |edges| && edges[x].NextInLML != NULL
    ensures edges[x].NextInLML !in ael
  {
    assert BoundStep(edges, rank, bound, x);
  }

  /**
   * The last horizontal of the run that starts at `x`: follow `NextInLML`
   * while the next edge is horizontal.  It lies on `x`'s bound, and the
   * edge after it is missing or not horizontal.
   */
  ghost function LastHorz(edges: seq<TEdge>, rank: seq<nat>, bound: seq<int>, x: int): (l: int)
    requires BoundsRanked(edges, rank, bound) && 0 <= x < |edges|
    ensures 0 <= l < |edges| && bound[l] == bound[x] && rank[l] <= rank[x]
    ensures l == x || edges[x].NextInLML != NULL
    ensures edges[l].NextInLML == NULL || (0 <= edges[l].NextInLML < |edges| && !IsHorizontal(edges[edges[l].NextInLML]))
    decreases rank[x]
  {
    assert BoundStep(edges, rank, bound, x);
    var n := edges[x].NextInLML;
    if n != NULL && IsHorizontal(edges[n]) then LastHorz(edges, rank, bound, n) else x
  }

  /** The edge after the run of horizontals that starts at `x`: null when the run ends at a maximum. */
  ghost function HorzSuccessor(edges: seq<TEdge>, rank: seq<nat>, bound: seq<int>, x: int): int
    requires BoundsRanked(edges, rank, bound) && 0 <= x < |edges|
  {
    edges[LastHorz(edges, rank, bound, x)].NextInLML
  }

  /** The maxima pair of the run that starts at `x`: the other side of the maximum the run ends at, if any. */
  ghost function HorzPair(edges: seq<TEdge>, rank: seq<nat>, bound: seq<int>, x: int): int
    requires BoundsRanked(edges, rank, bound) && 0 <= x < |edges|
  {
    var l := LastHorz(edges, rank, bound, x);
    assert BoundStep(edges, rank, bound, l);
    if edges[l].NextInLML == NULL then GetMaximaPair(edges, l) else NULL
  }

  /** One edge taken off the SEL by `ProcessHorizontals`, with the arena as it was when its run was processed. */
  datatype HorzVisit = HorzVisit(h: int, arena: seq<TEdge>)

  /**
   * The AEL members after a visit (see `ProcessHorizontal`): an edge still
   * in the AEL leaves it with the maxima pair of its run and the edge after
   * the run, if any, joins; an edge already gone is passed over.
   */
  ghost function RunOutcome(members: set<int>, rank: seq<nat>, bound: seq<int>, v: HorzVisit): set<int>
  {
    if v.h in members && 0 <= v.h < |v.arena| && BoundsRanked(v.arena, rank, bound) then
      var succ := HorzSuccessor(v.arena, rank, bound, v.h);
      (members - {v.h, HorzPair(v.arena, rank, bound, v.h)}) + (if succ != NULL then {succ} else {})
    else members
  }

  /** The members after visiting an edge that is still a member, one by one. */
  lemma RunOutcomeMembers(members: set<int>, rank: seq<nat>, bound: seq<int>, v: HorzVisit)
    requires v.h in members && 0 <= v.h < |v.arena| && BoundsRanked(v.arena, rank, bound)
    ensures forall x :: x in RunOutcome(members, rank, bound, v) <==>
      (x in members && x != v.h && x != HorzPair(v.arena, rank, bound, v.h)) ||
      (x == HorzSuccessor(v.arena, rank, bound, v.h) && x != NULL)
  {
  }

  /** The AEL members after the visits in order, from `members`. */
  ghost function HorzFold(members: set<int>, rank: seq<nat>, bound: seq<int>, visits: seq<HorzVisit>): set<int>
    decreases |visits|
  {
    if visits == [] then members
    else RunOutcome(HorzFold(members, rank, bound, visits[..|visits| - 1]), rank, bound, visits[|visits| - 1])
  }

  /** A step along a horizontal successor does not change the run's last horizontal. */
  lemma LastHorzStep(edges: seq<TEdge>, rank: seq<nat>, bound: seq<int>, x: int)
    requires BoundsRanked(edges, rank, bound) && LinksInRange(edges) && 0 <= x < |edges|
    requires edges[x].NextInLML != NULL && IsHorizontal(edges[edges[x].NextInLML])
    ensures 0 <= edges[x].NextInLML < |edges|
    ensures LastHorz(edges, rank, bound, edges[x].NextInLML) == LastHorz(edges, rank, bound, x)
  {
    assert BoundStep(edges, rank, bound, x);
  }

  /** The run's last horizontal depends only on what `BoundsKept` keeps. */
  lemma {:induction false} LastHorzKept(a: seq<TEdge>, b: seq<TEdge>, rank: seq<nat>, bound: seq<int>, x: int)
    requires BoundsRanked(a, rank, bound) && BoundsKept(a, b) && 0 <= x < |a|
    ensures BoundsRanked(b, rank, bound) && LastHorz(a, rank, bound, x) == LastHorz(b, rank, bound, x)
    decreases rank[x]
  {
    BoundsRankedKept(a, b, rank, bound);
    assert BoundStep(a, rank, bound, x);
    assert ShapeOf(a[x]) == ShapeOf(b[x]);
    var n := a[x].NextInLML;
    if n != NULL {
      assert ShapeOf(a[n]) == ShapeOf(b[n]);
      if IsHorizontal(a[n]) {
        LastHorzKept(a, b, rank, bound, n);
      }
    }
  }

  /** The edge ends at `pt` and its bound goes no further: one side of a local maximum at `pt`. */
  predicate EndsAt(e: TEdge, pt: IntPoint)
  {
    e.Top == pt && e.NextInLML == NULL
  }

  /** A maxima candidate the engine refuses: marked `Skip`, or off the AEL and not horizontal. */
  predicate Disqualified(e: TEdge)
  {
    e.OutIdx == SKIP || (Refuses(e, AEL) && !IsHorizontal(e))
  }

  /**
   * `GetMaximaPair`: the polygon neighbour of `e` that ends where `e` does
   * (the next one preferred to the previous one), or null when there is
   * none or the engine refuses that candidate.
   */
  function GetMaximaPair(edges: seq<TEdge>, e: int): (r: int)
    requires 0 <= e < |edges| && 0 <= edges[e].Next < |edges| && 0 <= edges[e].Prev < |edges|
    ensures r != NULL ==>
      r == (if EndsAt(edges[edges[e].Next], edges[e].Top) then edges[e].Next else edges[e].Prev) &&
      EndsAt(edges[r], edges[e].Top) && !Disqualified(edges[r])
    ensures r == NULL ==>
      (EndsAt(edges[edges[e].Next], edges[e].Top) ==> Disqualified(edges[edges[e].Next])) &&
      (!EndsAt(edges[edges[e].Next], edges[e].Top) && EndsAt(edges[edges[e].Prev], edges[e].Top) ==>
        Disqualified(edges[edges[e].Prev]))
  {
    var next, prev, top := edges[e].Next, edges[e].Prev, edges[e].Top;
    var c := if EndsAt(edges[next], top) then next else if EndsAt(edges[prev], top) then prev else NULL;
    if c != NULL && Disqualified(edges[c]) then NULL else c
  }

  /** `GetNextInAEL`: the AEL neighbour of `e` in direction `dir`. */
  function GetNextInAEL(e: TEdge, dir: Direction): int
  {
    if dir == LeftToRight then e.NextInAEL else e.PrevInAEL
  }

  /** Of a horizontal `horz` meeting the edge `e` in direction `dir`, the one on the left. */
  function LeftOfMeeting(horz: int, e: int, dir: Direction): int
  {
    if dir == LeftToRight then horz else e
  }

  /** Of a horizontal `horz` meeting the edge `e` in direction `dir`, the one on the right. */
  function RightOfMeeting(horz: int, e: int, dir: Direction): int
  {
    if dir == LeftToRight then e else horz
  }

  /** The position one step from `p` in direction `dir`. */
  function Toward(p: int, dir: Direction): int
  {
    if dir == LeftToRight then p + 1 else p - 1
  }

  /** In a well-formed AEL, `GetNextInAEL` of the member at `p` is the member one step along, or null past the end. */
  lemma GetNextInAELAt(edges: seq<TEdge>, order: seq<int>, p: int, dir: Direction)
    requires Chain(edges, AEL, order) && 0 <= p < |order|
    ensures GetNextInAEL(edges[order[p]], dir) == At(order, Toward(p, dir))
    ensures GetNextInAEL(edges[order[p]], dir) != NULL ==> GetNextInAEL(edges[order[p]], dir) in order
  {
    assert NextIn(edges[order[p]], AEL) == At(order, p + 1);
    assert PrevIn(edges[order[p]], AEL) == At(order, p - 1);
  }

  /**
   * The test `ProcessHorizontal` makes of the AEL neighbour `nb` of an edge
   * `e` that has just climbed off a horizontal: `nb` sits at `e`'s bottom,
   * contributes, is not at its own top, and is collinear with `e`.
   */
  predicate CollinearAtBottom(nb: TEdge, e: TEdge)
  {
    nb.Curr == e.Bot && nb.WindDelta != 0 && nb.OutIdx >= 0 && nb.Curr.y > nb.Top.y && SlopesEqual(e, nb)
  }

  /**
   * The AEL neighbour that `ProcessHorizontal` joins with the edge `n` that
   * has just climbed off a horizontal: the previous neighbour when it
   * passes `CollinearAtBottom`, else the next one when it does, and null
   * when neither does or `n` itself has no winding (an open path).
   */
  function JoinNeighbour(edges: seq<TEdge>, n: int): (nb: int)
    requires 0 <= n < |edges| && EdgeLinksIn(edges[n], |edges|)
    ensures var e, prev, next := edges[n], edges[n].PrevInAEL, edges[n].NextInAEL;
      var prevJoins := prev != NULL && CollinearAtBottom(edges[prev], e);
      var nextJoins := next != NULL && CollinearAtBottom(edges[next], e);
      (nb != NULL <==> e.WindDelta != 0 && (prevJoins || nextJoins)) &&
      (nb != NULL ==> nb == (if prevJoins then prev else next) && 0 <= nb < |edges| && CollinearAtBottom(edges[nb], e))
  {
    var e, prev, next := edges[n], edges[n].PrevInAEL, edges[n].NextInAEL;
    if e.WindDelta == 0 then NULL
    else if prev != NULL && CollinearAtBottom(edges[prev], e) then prev
    else if next != NULL && CollinearAtBottom(edges[next], e) then next
    else NULL
  }
}
