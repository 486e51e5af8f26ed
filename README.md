# Verified model of the SVGnest geometry core

This project is a Dafny model of the sequential core of an SVG nesting tool. Its parts:

- **The Vatti clipping engine** (`clipper.ts` and `t-edge.ts`), an integer-coordinate polygon
  boolean-clipping engine in the style of Angus Johnson's Clipper. A scanline sweep keeps two
  intrusive doubly-linked lists of edges:
  - the Active Edge List (AEL);
  - the Sorted Edge List (SEL).

  Where edges cross, it records an intersection list, repairs its order and processes it. It
  decides from winding counts and the fill rules whether an edge contributes to the result. Each
  output fragment (`OutRec`) holds a circular doubly-linked ring of output points (`OutPt`).
  Fragments are started at local minima, extended, joined at local maxima and redirected to the
  fragment that absorbed them.
- **The polygon helpers** (`helpers.ts`): point-in-polygon, bounding box, shoelace area,
  containment nesting, and conversion to flat coordinate nodes.
- **The no-fit-polygon cache** (`nfp-store.ts`). It is evicted by generation: only entries
  requested in the current cycle survive.
- **The worker-slot allocator** (`worker-pool.ts`).
- **The promise-like `Operation`** (`opertaion.ts`).
- **The lookup tables of the SVG path-segment polyfill** (`svg-path-seg/constants.ts`). They map
  between the path command letters of section 8.3 of SVG 1.1 and the `SVGPathSeg` interfaces of
  section 8.5 of SVG 1.1.

How the model represents them:

- **Edge arena.** Edges live in a `seq<TEdge>` indexed by `int`. Every reference field (`Next`,
  `Prev`, `NextInLML` and the AEL and SEL links) is an index, and `-1` stands for `null`. The
  list-surgery operations of `TEdge` are value methods over that arena. `ListKind` selects the
  AEL or the SEL links, so both variants share one proof.
- **Engine class.** `Clipper` is a class whose fields the methods reassign:
  - the edge arena;
  - both list heads;
  - the output point and record arenas;
  - the intersection list;
  - the join lists;
  - the lock.
- **Ghost state.** Ghost fields give the lists their meaning:
  - `ael` and `sel` are the list members from head to tail;
  - `rings` is each record's ring, starting at `Pts`;
  - `owner` is each point's record.

  `Valid()` says the links thread exactly those sequences.
- **Other classes.** `NfpStore`, `WorkerPool` (its slot bitmap and workers are arrays) and
  `Operation` are classes too.
- **Pure parts.** `getContributing`, the winding-count table, the crossing decisions and the
  constant tables are functions, related to independent reference definitions by lemmas.

Floating point is not modelled, and several collaborators lie outside the model:

- **Slopes.** `Dx` is an exact rational.
- **Oracle parameters.** The rounded X-at-Y offset, the intersection point, the tolerance tests
  of `pointInPolygon`, and the `OutRec` methods that are not part of this model are all
  parameters. They are bundled in `Collaborators`, `Geometry` and `Tolerance`.
- **Errors.** A null dereference of the source and a call to `showError` both become a
  `Failure` result. The failure is passed up to `Execute`, whose `finally` still runs.

## Model

Source paths below are relative to the repository root.

| member | source | states |
|---|---|---|
| ClipperEngine.Clipper.Execute | packages/geometry-utils/src/clipper/clipper.ts:27-63 | a locked engine answers false and changes nothing, `solution` included; with open paths it fails and changes nothing; otherwise the answer is the sweep's, the clip and fill types are recorded, the lock is released, no output record and no join is left, and `solution` holds exactly the exports of the records the sweep built (`swept`) when the sweep answered true and is empty otherwise |
| ClipperEngine.Clipper.RunLocked | packages/geometry-utils/src/clipper/clipper.ts:50-60 | the `try`/`finally` of `Execute`: the result is the sweep's; the exports of the records the sweep built are appended only when it answered true; records disposed and lock released on every path |
| ClipperEngine.Clipper.Lock | packages/geometry-utils/src/clipper/clipper.ts:41-47 | the lock is taken and the clip type and both fill types recorded |
| ClipperEngine.Clipper.ExecuteInternal | packages/geometry-utils/src/clipper/clipper.ts:65-134 | the output the sweep built (`swept`) becomes the engine's output records and rings; in the `finally` both join lists are emptied whatever the outcome, which is returned unchanged |
| ClipperEngine.Clipper.BuildResult | packages/geometry-utils/src/clipper/clipper.ts:1325-1339 | the polygons are extended by every record's non-null export, in record order |
| ClipperEngine.ExportedExactly | packages/geometry-utils/src/clipper/clipper.ts:1325-1339 | every collected polygon is some record's export, and with no null export there is exactly one per record, in record order |
| ClipperEngine.Clipper.DisposeAllPolyPts | packages/geometry-utils/src/clipper/clipper.ts:1415-1426 | no output record and no ring is left |
| ClipperEngine.Clipper.constructor | packages/geometry-utils/src/clipper/clipper.ts:11-24 | the field initialisers: both lists, the intersection list, the output and the joins empty, unlocked, clip type intersection and even-odd fills |
| ClipperEngine.GetOverlap | packages/geometry-utils/src/clipper/clipper.ts:426-445 | Left is the larger of the two interval minima and Right the smaller of the two maxima, whatever order each pair comes in; the answer is true iff Left < Right |
| ClipperEngine.GetHorzDirection | packages/geometry-utils/src/clipper/clipper.ts:1440-1450 | left-to-right iff the bottom lies left of the top; Left and Right are the minimum and maximum of the two ends' X |
| ClipperEngine.Clipper.AddEdgeToSEL | packages/geometry-utils/src/clipper/clipper.ts:723-736 | the edge becomes the SEL head in front of the old members, the SEL stays well formed and only SEL links change |
| ClipperEngine.Clipper.InsertEdgeIntoAEL | packages/geometry-utils/src/clipper/clipper.ts:738-758 | the AEL stays a well-formed list whose members grow by exactly the edge, placed at the front when it inserts before the head (or the list is empty) and otherwise after the start edge and every following edge it does not insert before; only AEL links change |
| ClipperEngine.Clipper.SwapPositionsInAEL | packages/geometry-utils/src/clipper/clipper.ts:1698-1708 | when neither edge is refused the two members trade places in the AEL and the head is the first member; when either is refused nothing changes |
| ClipperEngine.Clipper.SwapPositionsInSEL | packages/geometry-utils/src/clipper/clipper.ts:1710-1720 | the same on the SEL |
| ClipperEngine.Clipper.CopyAELToSEL | packages/geometry-utils/src/clipper/clipper.ts:1722-1729 | the SEL becomes the AEL in the same order, headed by the same edge, and only SEL links of active edges change |
| ClipperEngine.Clipper.UpdateEdgeIntoAEL | packages/geometry-utils/src/clipper/clipper.ts:1610-1645 | with no successor the call fails and nothing changes; otherwise the successor takes `e`'s place in the AEL, inheriting `OutIdx`, `Side`, `WindDelta`, `WindCnt` and `WindCnt2`, starts at its bottom, and its top Y joins the scanbeam only when it is not horizontal |
| ClipperEngine.Clipper.AddOutPt | packages/geometry-utils/src/clipper/clipper.ts:1341-1391 | an edge without a fragment gets a new record whose ring is a single self-linked node and takes its index; otherwise the point goes in between `Pts.Prev` and `Pts`, becoming `Pts` only for a left-side edge, unless it repeats the point at that end, whose node is then returned unchanged; a bad record fails |
| ClipperEngine.AddedPointAtEnd | packages/geometry-utils/src/clipper/clipper.ts:1341-1391 | after a successful `AddOutPt` the returned node carries the point and is the end of the edge's fragment that its side extends (front for left, back otherwise) |
| ClipperOutput.NewRing | packages/geometry-utils/src/clipper/clipper.ts:1346-1364 | the new record's ring is one node linked to itself, carrying the point, and the output stays well formed |
| ClipperOutput.AddToRing | packages/geometry-utils/src/clipper/clipper.ts:1365-1390 | a point equal to the end being extended returns that end's node and changes nothing; otherwise the ring gains one new node at that end |
| ClipperOutput.ExtendedPath | packages/geometry-utils/src/clipper/clipper.ts:1376-1390 | after an insertion the fragment's polygon is the old one with the point added at the front or at the back |
| ClipperEngine.Clipper.DupOutPt | packages/geometry-utils/src/clipper/clipper.ts:267-285 | a copy of the node (same point and record index) is threaded into its ring right after it, or right before it, and the output stays well formed |
| ClipperEngine.DuplicatedPath | packages/geometry-utils/src/clipper/clipper.ts:267-285 | the ring's polygon gains the duplicated point next to the original and is otherwise unchanged |
| ClipperEngine.Clipper.GetOutRec | packages/geometry-utils/src/clipper/clipper.ts:261-265 | following `Idx` redirects ends at the root record, the one sitting at its own slot |
| ClipperOutput.Representative | packages/geometry-utils/src/clipper/clipper.ts:261-265 | the root reached from a slot is at or below it and sits at its own slot |
| ClipperOutput.RedirectRoot | packages/geometry-utils/src/clipper/clipper.ts:1240-1243 | redirecting an absorbed root to the kept root keeps the redirects acyclic and moves exactly the slots that reached the absorbed root over to the kept one |
| ClipperEngine.Clipper.UpdateOutPtIdxs | packages/geometry-utils/src/clipper/clipper.ts:517-523 | every node of the record's ring gets the record's `Idx` and no other node changes; a record without points fails |
| ClipperOutput.Relabel | packages/geometry-utils/src/clipper/clipper.ts:517-523 | the backward walk from `Pts` relabels exactly the ring's nodes |
| ClipperEngine.Clipper.AppendPolygon | packages/geometry-utils/src/clipper/clipper.ts:1160-1246 | the higher fragment's ring is spliced onto the lower one's as the two edges' sides dictate, reversed when both are on the same side; the absorbed record loses its points and takes the kept record as `Idx` and `FirstLeft`; a bad record fails with nothing changed |
| ClipperEngine.AppendedEffects | packages/geometry-utils/src/clipper/clipper.ts:1218-1245 | after `AppendPolygon` both edges have no fragment, the absorbed record is empty and redirected, the kept ring holds exactly both rings' nodes, and at most one other edge changed, moved from the absorbed record to the kept one |
| ClipperEngine.AppendedPath | packages/geometry-utils/src/clipper/clipper.ts:1176-1216 | the kept fragment's polygon is the two polygons joined in the order and directions the sides give: no point is lost, added or reordered |
| ClipperOutput.JoinRings | packages/geometry-utils/src/clipper/clipper.ts:1176-1216 | the link writes leave one ring made of both rings (the second reversed when the sides agree) and touch no other node |
| ClipperEngine.Clipper.AddLocalMaxPoly | packages/geometry-utils/src/clipper/clipper.ts:1143-1158 | the point goes onto `e1`'s fragment (and `e2`'s when it is open); then two edges on one fragment both lose it, and otherwise the higher-indexed fragment is appended onto the lower |
| ClipperEngine.LocalMaxMerged | packages/geometry-utils/src/clipper/clipper.ts:1149-1157 | after the merge both edges have no fragment; a shared fragment leaves the output as it was, and otherwise the higher record is emptied and redirected to the lower, whose ring holds both rings' nodes |
| ClipperEngine.Clipper.AddLocalMinPoly | packages/geometry-utils/src/clipper/clipper.ts:1277-1319 | the lead edge (`MinLead`) gets the point and both edges share its fragment, lead on the left; when the lead's AEL predecessor passes through the point with the same slope and both are closed, the point also goes on that edge's fragment and the two nodes are joined |
| ClipperEngine.MinLead | packages/geometry-utils/src/clipper/clipper.ts:1281-1291 | `e1` leads iff `e2` is horizontal or `e1` has the greater `Dx` |
| ClipperEngine.MinStartedShared | packages/geometry-utils/src/clipper/clipper.ts:1281-1300 | after the first half both edges carry one fragment index, the lead is on the left and the other on the right, and the returned node carries the point at the fragment's end |
| ClipperEngine.Clipper.AddJoin | packages/geometry-utils/src/clipper/clipper.ts:1321-1323 | the join list grows by exactly the new join |
| ClipperEngine.Clipper.SetWindingCount | packages/geometry-utils/src/clipper/clipper.ts:799-866 | only the edge's `WindCnt` and `WindCnt2` change, to `WindingCounts` at its AEL position |
| ClipperWinding.SetWinding | packages/geometry-utils/src/clipper/clipper.ts:799-866 | the three pointer walks compute `WindingCounts` |
| ClipperWinding.BackToSameType | packages/geometry-utils/src/clipper/clipper.ts:800-802 | the walk stops at the nearest earlier closed edge of the same set, or null |
| ClipperWinding.InsideParity | packages/geometry-utils/src/clipper/clipper.ts:815-823 | the `Inside` walk gives 0 for an even number of earlier closed same-set edges, else 1 |
| ClipperWinding.WindCnt2Loop | packages/geometry-utils/src/clipper/clipper.ts:852-865 | the forward walk toggles (even-odd other fill) or adds each `WindDelta` up to the edge |
| ClipperWinding.StartCounts | packages/geometry-utils/src/clipper/clipper.ts:803-851 | the decision table after the first walk gives the starting counts `FirstPhase` defines |
| ClipperWinding.FirstStart | packages/geometry-utils/src/clipper/clipper.ts:803-807 | with no earlier closed same-set edge, `WindCnt` is `WindDelta` (1 when open) and `WindCnt2` starts from 0 at the head |
| ClipperWinding.FirstSum | packages/geometry-utils/src/clipper/clipper.ts:859-865 | in that case, outside even-odd other fill, `WindCnt2` is the sum of every earlier AEL edge's `WindDelta` |
| ClipperWinding.FirstParity | packages/geometry-utils/src/clipper/clipper.ts:853-858 | in that case, under even-odd other fill, `WindCnt2` is the parity of the earlier closed edges |
| ClipperWinding.FirstOfItsSet | packages/geometry-utils/src/clipper/clipper.ts:802-807 | both counts of the first edge of its set, against independent sums and parities |
| ClipperWinding.AltWindCnt2Binary | packages/geometry-utils/src/clipper/clipper.ts:853-858 | under even-odd other fill `WindCnt2` only toggles within {0, 1} |
| ClipperWinding.AccumulateSums | packages/geometry-utils/src/clipper/clipper.ts:859-865 | the adding loop equals start plus the sum of the deltas passed |
| ClipperWinding.AccumulateToggles | packages/geometry-utils/src/clipper/clipper.ts:853-858 | the toggling loop equals a parity of the closed edges passed |
| ClipperWinding.WindAfterNonZero | packages/geometry-utils/src/clipper/clipper.ts:830-847 | the non-zero-rule table never lands a boundary edge on a zero count when deltas are unit steps |
| ClipperWinding.WindCntNonZero | packages/geometry-utils/src/clipper/clipper.ts:799-851 | hence `SetWindingCount` never gives such an edge `WindCnt` 0 |
| ClipperEngine.Clipper.IntersectEdges | packages/geometry-utils/src/clipper/clipper.ts:884-1141 | the decision is `Decide` on the edges as they were; closed edges first update their counts as `CrossedCounts` says; the output step is then exactly the one the decision names (`CrossingDone`: `OpenStepDone` or `ClosedStepDone`) and the output ends as that step leaves it; a protected call removes no edge; on success exactly the edges that end at the point leave the AEL; a crossing deciding nothing or only a side swap adds no output |
| ClipperEngine.Clipper.DropStoppedOpen | packages/geometry-utils/src/clipper/clipper.ts:946-959 | fails iff an edge ending here still holds a fragment; otherwise every edge ending here leaves the AEL |
| ClipperEngine.Clipper.DropStoppedClosed | packages/geometry-utils/src/clipper/clipper.ts:1130-1140 | every edge ending here leaves the AEL, after a side and index swap when exactly one ends here holding a fragment |
| ClipperEngine.Clipper.PerformOpen | packages/geometry-utils/src/clipper/clipper.ts:893-945 | the open-edge output step, action by action (`OpenStepDone`): nothing changes; or both fragments close at a maximum (`LocalMaxClosed`); or one edge adds the point and, when asked, then leaves its fragment (`PointCleared`) |
| ClipperEngine.Clipper.PerformClosed | packages/geometry-utils/src/clipper/clipper.ts:1044-1129 | the closed-edge output step, action by action (`ClosedStepDone`): nothing; a side exchange only; both fragments closed at a maximum (`LocalMaxClosed`); a fragment started at a minimum (`LocalMinAdded`, the only action that records a join); or points added and sides and indexes exchanged (`PointsSwapped`) |
| ClipperEngine.Clipper.PointAndClear | packages/geometry-utils/src/clipper/clipper.ts:906-944 | the edge adds the point (`OutPtAdded`); unless that fails, its `OutIdx` is cleared when asked and nothing else changes (`PointCleared`) |
| ClipperEngine.Clipper.CloseOrStart | packages/geometry-utils/src/clipper/clipper.ts:1044-1125 | a maximum closes both fragments as `LocalMaxClosed` says; a minimum starts a shared fragment and records its join as `LocalMinAdded` says, succeeding iff starting it did |
| ClipperEngine.Clipper.PointsForAction | packages/geometry-utils/src/clipper/clipper.ts:1053-1069 | the three point actions are `PointsSwapped` with the points asked for, and record no join |
| ClipperEngine.Clipper.AddPointWhen | packages/geometry-utils/src/clipper/clipper.ts:1054-1067 | `AddOutPt` on the edge exactly when asked, as `OutPtAdded` says; otherwise nothing changes |
| ClipperEngine.Clipper.SecondPointAndSwap | packages/geometry-utils/src/clipper/clipper.ts:1055-1057 | after the first point: the second edge adds the point when asked, and unless that fails the two edges trade sides and fragment indexes (`SecondSwapped`) |
| ClipperEngine.Clipper.IntersectOpen | packages/geometry-utils/src/clipper/clipper.ts:893-959 | the open-edge step (`OpenStepDone`), then the edges ending at the point leave the AEL; "nothing" adds no output |
| ClipperEngine.Clipper.IntersectClosed | packages/geometry-utils/src/clipper/clipper.ts:965-1140 | the counts are updated (`Counted`), the closed-edge step runs on that arena (`ClosedStepDone`), and the edges ending at the point leave the AEL; nothing or a side exchange adds no output |
| ClipperEngine.Clipper.PerformAndDropClosed | packages/geometry-utils/src/clipper/clipper.ts:1044-1140 | the closed-edge step (`ClosedStepDone`) and, when it succeeds, the edges ending at the point leave the AEL |
| ClipperEngine.Clipper.CrossAs | packages/geometry-utils/src/clipper/clipper.ts:893-1140 | the crossing once decided: the open or closed branch as `CrossingDone` says, from the arena after any count update |
| ClipperEngine.Clipper.CrossCounts | packages/geometry-utils/src/clipper/clipper.ts:965-995 | the arena after the count update is `Counted`, i.e. `CrossedCounts` on the two edges |
| ClipperEngine.CountedTwice | packages/geometry-utils/src/clipper/clipper.ts:965-995 | updating the counts of the two edges, then of the crossed pair back, restores them |
| ClipperCrossing.CrossedCounts | packages/geometry-utils/src/clipper/clipper.ts:965-995 | only the counts change: same-set edges keep `WindCnt2` and move `WindCnt`, different-set edges keep `WindCnt` and move `WindCnt2` |
| ClipperCrossing.CrossCount | packages/geometry-utils/src/clipper/clipper.ts:971-981 | a non-zero-rule count moves by the other delta but never lands on zero (it flips sign) |
| ClipperCrossing.Toggle | packages/geometry-utils/src/clipper/clipper.ts:987-993 | the even-odd toggle stays in {0, 1} and flips 0 and 1 |
| ClipperCrossing.CrossingKeepsForm | packages/geometry-utils/src/clipper/clipper.ts:965-995 | the count update keeps counts in the engine's form (non-zero own counts, 0/1 under even-odd) |
| ClipperCrossing.CrossingBackRestores | packages/geometry-utils/src/clipper/clipper.ts:965-995 | crossing back undoes a crossing on counts in that form |
| ClipperCrossing.CrossCountBack | packages/geometry-utils/src/clipper/clipper.ts:971-981 | moving a non-zero count by `d` and then by `-d` restores it |
| ClipperCrossing.FillCount | packages/geometry-utils/src/clipper/clipper.ts:1017-1042 | the tested count is positive iff the count is inside by the fill rule, and non-negative, zero only for zero, under even-odd and non-zero |
| ClipperCrossing.FillCountOnBoundary | packages/geometry-utils/src/clipper/clipper.ts:1017-1042 | a tested count of 1 means the edge bounds its own set, for the non-zero rules |
| ClipperCrossing.OpenCrossing | packages/geometry-utils/src/clipper/clipper.ts:893-945 | only an open edge gets a point, cleared iff it had a fragment; both fragments close iff both edges are open, contributing and one ends here |
| ClipperCrossing.OpenPointNeedsBoundary | packages/geometry-utils/src/clipper/clipper.ts:902-944 | an open edge takes a closed edge's crossing point only when that edge bounds the result there |
| ClipperCrossing.ClosedCrossingByFragments | packages/geometry-utils/src/clipper/clipper.ts:1044-1129 | fragments close only when both edges had one, are extended exactly for the edges that had one, and start only when neither had |
| ClipperCrossing.ContinuingFragments | packages/geometry-utils/src/clipper/clipper.ts:1044-1058 | two continuing contributing edges both get the point and trade sides, unless they are of different sets outside XOR, where the fragments close |
| ClipperCrossing.MinimumByClipType | packages/geometry-utils/src/clipper/clipper.ts:1100-1125 | the local-minimum table per clip type: XOR always, union when both are outside the other set, intersection when both are inside, difference by set |
| ClipperCrossing.Decide | packages/geometry-utils/src/clipper/clipper.ts:884-1141 | the open table iff an edge is open; a maximum only when both had fragments and a minimum only when neither had |
| ClipperEngine.Clipper.BuildIntersectList | packages/geometry-utils/src/clipper/clipper.ts:1731-1788 | with no active edges nothing changes; otherwise each active edge moves to its X at `topY`, the bubble sort records one node per neighbour swap (`Bubbled`), and the SEL ends empty |
| ClipperEngine.BubbledNodes | packages/geometry-utils/src/clipper/clipper.ts:1731-1788 | the recorded nodes are inversions of the list as the earlier ones left it, and replaying them sorts the AEL by X at the top |
| ClipperEngine.Clipper.FixupIntersectionOrder | packages/geometry-utils/src/clipper/clipper.ts:1662-1696 | the list is sorted bottom-most first and then repaired as `Fixup` says; the SEL is the AEL with the nodes up to the stopping point applied |
| ClipperIntersect.IntersectNodeSort | packages/geometry-utils/src/clipper/clipper.ts:1790-1794 | negative iff the first node is lower (larger Y), zero iff at the same Y |
| ClipperIntersect.SortNodesSorted | packages/geometry-utils/src/clipper/clipper.ts:1664 | the stable sort leaves the list bottom-most first |
| ClipperIntersect.SortNodes | packages/geometry-utils/src/clipper/clipper.ts:1664 | the sorted list holds the same nodes (as a multiset) |
| ClipperIntersect.FixupAdjacent | packages/geometry-utils/src/clipper/clipper.ts:1662-1696 | the repaired list is a rearrangement of the sorted one; every node before the stopping point joins two SEL-adjacent edges when its turn comes; it stops early only where no remaining node does |
| ClipperIntersect.FixupFromAdjacent | packages/geometry-utils/src/clipper/clipper.ts:1670-1694 | the same, by induction from any position |
| ClipperIntersect.InversionsFixup | packages/geometry-utils/src/clipper/clipper.ts:1662-1696 | a list of inversions in the order they were found goes through the repair unchanged |
| ClipperIntersect.LinkedAdjacent | packages/geometry-utils/src/clipper/clipper.ts:1676-1679 | `edgesAdjacent` on the SEL links is adjacency by position in a well-formed SEL |
| ClipperIntersect.ReplayDistinct | packages/geometry-utils/src/clipper/clipper.ts:873-882 | replaying swaps keeps the list free of repeats |
| ClipperEngine.Clipper.ProcessIntersectList | packages/geometry-utils/src/clipper/clipper.ts:873-882 | every node's edges cross (protected) and trade places; on success the AEL is the list's replay and the list is emptied |
| ClipperEngine.Clipper.ProcessBuiltList | packages/geometry-utils/src/clipper/clipper.ts:770-797 | an empty list gives true; a single node or a repaired list is processed and gives true with the SEL head null, in an order that is the built list itself or a rearrangement of it in which each node joins two AEL neighbours when its turn comes (`Rearranged`); a list the repair gives up on gives false; a failure clears the list |
| ClipperEngine.Clipper.ProcessIntersections | packages/geometry-utils/src/clipper/clipper.ts:770-797 | no active edges gives true and changes nothing; otherwise the list is built as `Bubbled` says and processed as `ProcessBuiltList` says, and on true the AEL ends in ascending order of X at `topY` |
| ClipperEngine.ProcessedSorted | packages/geometry-utils/src/clipper/clipper.ts:776-784 | processing the built list, or any rearrangement of it the repair allows, leaves the AEL in ascending X at the top of the scanbeam |
| ClipperIntersect.FixedUpSteps | packages/geometry-utils/src/clipper/clipper.ts:1662-1696 | a repair that went through leaves the same nodes (as a multiset), each joining two SEL-adjacent edges when its turn comes |
| ClipperIntersect.FixupFromPerm | packages/geometry-utils/src/clipper/clipper.ts:1687-1689 | the repair only exchanges nodes: the list keeps its multiset |
| ClipperIntersect.RearrangedSorted | packages/geometry-utils/src/clipper/clipper.ts:1662-1696 | replaying any rearrangement of the bubble sort's inversions that swaps adjacent members at every turn sorts the AEL just as the inversions do |
| ClipperIntersect.ReplayOrder | packages/geometry-utils/src/clipper/clipper.ts:873-882 | after adjacent swaps, `a` stands before `b` iff it stood before and an even number of the nodes crossed the pair |
| ClipperIntersect.OddCrossingsPerm | packages/geometry-utils/src/clipper/clipper.ts:1687-1689 | two lists with the same nodes in any order cross every pair the same number of times, modulo 2 |
| ClipperIntersect.ExchangeAdjacentOrder | packages/geometry-utils/src/clipper/clipper.ts:1698-1708 | exchanging two adjacent members reverses the order of exactly that pair |
| ClipperEngine.Clipper.ProcessHorizontals | packages/geometry-utils/src/clipper/clipper.ts:1428-1438 | on success the SEL is empty; each visit takes the SEL head in the old order (`Visited`), and the AEL members are each visit's outcome (`RunOutcome`: the horizontal and its pair out, the edge after the run in) folded over the old members (`HorzFold`); ghost joins only at the top of a scanbeam; every edge keeps its geometry and bound links |
| ClipperEngine.Clipper.TakeSelHead | packages/geometry-utils/src/clipper/clipper.ts:1429-1432 | the returned edge is the old SEL head and the SEL loses exactly it |
| ClipperEngine.Clipper.VisitHorizontal | packages/geometry-utils/src/clipper/clipper.ts:1431-1434 | one turn of the loop: the SEL head is taken off and, on success, the AEL members are `RunOutcome` of that horizontal on the old members |
| ClipperEngine.Clipper.DeleteFromSEL | packages/geometry-utils/src/clipper/t-edge.ts:165-186 | the edge leaves the SEL, which keeps all other members in order, ends detached, and only SEL links change |
| ClipperEngine.Clipper.ProcessHorizontal | packages/geometry-utils/src/clipper/clipper.ts:1452-1566 | on success the AEL has lost the horizontal and, at a maximum, its maxima pair (`HorzPair`), and has gained the edge after the run of horizontals (`HorzSuccessor`) when there is one; ghost joins only at the top of a scanbeam |
| ClipperEngine.Clipper.HorizontalRun | packages/geometry-utils/src/clipper/clipper.ts:1459-1462 | the last horizontal of the run is `LastHorz`; the maxima pair is looked up only when the run ends at a maximum, and then ends where the last horizontal does |
| ClipperEngine.Clipper.FindLastHorz | packages/geometry-utils/src/clipper/clipper.ts:1459-1461 | the loop following `NextInLML` while the next edge is horizontal ends at `LastHorz` |
| ClipperHorizontal.LastHorz | packages/geometry-utils/src/clipper/clipper.ts:1459-1461 | the run's last horizontal lies on the same bound, no higher in it, and the edge after it is missing or not horizontal |
| ClipperHorizontal.LastHorzStep | packages/geometry-utils/src/clipper/clipper.ts:1507-1508 | stepping to a horizontal successor leaves the run's last horizontal unchanged |
| ClipperHorizontal.LastHorzKept | packages/geometry-utils/src/clipper/clipper.ts:1459-1461 | the run's last horizontal depends only on edge geometry and bound links, which the sweep never writes |
| ClipperHorizontal.GetMaximaPair | packages/geometry-utils/src/clipper/clipper.ts:1568-1575 | the next ring neighbour when it ends at the edge's top, else the previous one; null when the chosen neighbour is marked skip, or has equal AEL links without being horizontal, or when neither ends there |
| ClipperHorizontal.GetNextInAELAt | packages/geometry-utils/src/clipper/clipper.ts:1606-1608 | in a well-formed AEL, the neighbour in a direction is the member one position along, or null past the end |
| ClipperHorizontal.SuccessorNotActive | packages/geometry-utils/src/clipper/clipper.ts:1507-1508 | the next edge of an active edge's bound is not itself on the AEL, as `UpdateEdgeIntoAEL` needs |
| ClipperEngine.Clipper.WalkRun | packages/geometry-utils/src/clipper/clipper.ts:1463-1518 | the outer loop: true when the walk closed the run at its maxima pair (both gone from the AEL), false when it stopped on the run's last horizontal, then active in place of the first |
| ClipperEngine.Clipper.HorizontalStep | packages/geometry-utils/src/clipper/clipper.ts:1463-1516 | one turn of the outer loop: closes at the pair, stops on the last horizontal with the AEL members unchanged, or advances to the bound's next horizontal, which replaces the current one on the AEL |
| ClipperEngine.Clipper.HorizontalPass | packages/geometry-utils/src/clipper/clipper.ts:1463-1505 | the inner walk over the AEL edges within the horizontal's span: true only for the last horizontal of a run that has a pair, both then off the AEL; false with the AEL members unchanged |
| ClipperEngine.Clipper.MeetEdge | packages/geometry-utils/src/clipper/clipper.ts:1472-1497 | meeting the pair as the last horizontal removes both from the AEL; otherwise the horizontal moves one place past the edge with every other position kept; ghost joins only at the top of a scanbeam |
| ClipperEngine.Clipper.CrossMaxima | packages/geometry-utils/src/clipper/clipper.ts:1480-1489 | the crossing of the horizontal and its pair at the pair's top, left edge first by direction: the decision is `Decide` on the two edges as they were, closed edges get the `Counted` arena, and the output step is `CrossingDone` for that decision (for a decision that closes the fragment, `LocalMaxClosed`); on success both edges are off the AEL, nothing else left it, and the pair holds no fragment (the source reports an error otherwise) |
| ClipperEngine.Clipper.PassEdge | packages/geometry-utils/src/clipper/clipper.ts:1490-1497 | the AEL keeps its members; on success the horizontal and the edge trade places and every other position is kept |
| ClipperEngine.Clipper.CrossProtected | packages/geometry-utils/src/clipper/clipper.ts:1490-1496 | the protected crossing of a horizontal and the edge it passes, left edge first by direction: the decision is `Decide` with protection, closed edges get the `Counted` arena, the output step is `CrossingDone` for that decision, and the AEL stays as it was |
| ClipperEngine.Clipper.ExchangeAtMeeting | packages/geometry-utils/src/clipper/clipper.ts:1497 | the horizontal and its neighbour in the direction of travel trade AEL places; the members and every other position are kept |
| ClipperEngine.Clipper.PrepareHorzJoins | packages/geometry-utils/src/clipper/clipper.ts:1577-1600 | fails iff the fragment index names no record, or the record has no points and its point is needed; at the top of a scanbeam exactly one ghost join is appended for the fragment end the edge extends, offset to the edge end that point is not at; otherwise nothing is recorded |
| ClipperEngine.Clipper.AddGhostJoin | packages/geometry-utils/src/clipper/clipper.ts:1602-1604 | the ghost join list grows by exactly a join with no second point |
| ClipperEngine.Clipper.AdvanceHorizontal | packages/geometry-utils/src/clipper/clipper.ts:1506-1516 | after the ghost joins, a horizontal successor replaces the horizontal in its AEL position, inherits its `OutIdx`, and adds its bottom to the fragment if it holds one (`FragmentPointAdded`); the result is then true; otherwise false with the AEL and the output unchanged |
| ClipperEngine.Clipper.StepToSuccessor | packages/geometry-utils/src/clipper/clipper.ts:1507-1509 | the successor takes the horizontal's AEL position with its `OutIdx` and adds its bottom point when it holds a fragment; it fails iff that point fails |
| ClipperEngine.Clipper.ReplaceBySuccessor | packages/geometry-utils/src/clipper/clipper.ts:1507-1508 | the bound's next edge takes the horizontal's AEL position; it was not active before and lies lower in the bound |
| ClipperEngine.Clipper.FinishHorizontal | packages/geometry-utils/src/clipper/clipper.ts:1519-1565 | on success the AEL has lost the horizontal and the pair, if any, and gained the bound's next edge, if any; without a pair the horizontal first adds its top to its fragment, if it has one (`FragmentPointAdded`), and a failure there fails |
| ClipperEngine.Clipper.LeaveAtTop | packages/geometry-utils/src/clipper/clipper.ts:1560-1565 | the horizontal adds its top to its fragment, if it has one, and leaves the AEL; it fails iff that point fails |
| ClipperEngine.Clipper.ClimbOffHorizontal | packages/geometry-utils/src/clipper/clipper.ts:1519-1550 | the horizontal adds its top to its fragment, if it has one (`FragmentPointAdded`); then the bound's next edge takes its AEL position, and for a horizontal with a fragment that edge inherits it and looks for a join at its bottom (`BottomJoined`); without a fragment the output and joins are unchanged |
| ClipperEngine.Clipper.ReplaceAndJoin | packages/geometry-utils/src/clipper/clipper.ts:1522-1549 | the bound's next edge takes the horizontal's AEL position, inherits its `OutIdx`, and looks for a join at its bottom as `BottomJoined` says |
| ClipperHorizontal.JoinNeighbour | packages/geometry-utils/src/clipper/clipper.ts:1523-1549 | null iff the new edge is open or neither AEL neighbour sits at its bottom, contributing and collinear; otherwise the previous neighbour when it qualifies, else the next |
| ClipperEngine.Clipper.JoinAtBottom | packages/geometry-utils/src/clipper/clipper.ts:1523-1549 | with no qualifying neighbour (`JoinNeighbour`) nothing changes; otherwise the neighbour adds the new edge's bottom (`OutPtAdded`) and, unless that fails, exactly one join is appended, from `op1` to the node it returned, guided by the new edge's top (`BottomJoined`) |
| ClipperEngine.Clipper.AddJoinAt | packages/geometry-utils/src/clipper/clipper.ts:1536-1537 | the neighbour adds the point (`OutPtAdded`); on success the join list grows by exactly one join from `op1` to the returned node, which carries the point at the end of the neighbour's fragment its side extends; on failure no join is added |
| ClipperEngine.Clipper.LeaveWithPair | packages/geometry-utils/src/clipper/clipper.ts:1551-1559 | on success both the horizontal and its maxima pair are off the AEL and nothing else left it |
| ClipperEngine.RunMembers | packages/geometry-utils/src/clipper/clipper.ts:1452-1566 | the walk's replacements and the end of the run compose to the membership `ProcessHorizontal` promises |
| ClipperEngine.Clipper.AddPointsAndSwap | packages/geometry-utils/src/clipper/clipper.ts:1053-1069 | the point goes onto the first edge's fragment and then the second's, each only when asked and as `OutPtAdded` says; unless one fails the edges then trade `Side` and `OutIdx` (`PointsSwapped`); a failure ends the step in the state it left |
| ClipperEngine.LinkAsHead | packages/geometry-utils/src/clipper/clipper.ts:739-747 | the head cases of `InsertEdgeIntoAEL` write the same links as threading the edge in with no predecessor |
| ClipperEdge.RemovedRingAt | packages/geometry-utils/src/clipper/t-edge.ts:78-87 | after `remove`, each remaining ring member points to its neighbours in the shortened ring |
| ClipperEngine.Clipper.DeleteFromAEL | packages/geometry-utils/src/clipper/t-edge.ts:188-208 | the edge leaves the AEL, which keeps all other members in order, and ends detached |
| ClipperEngine.Clipper.ClearOutIdx | packages/geometry-utils/src/clipper/clipper.ts:912 | only the edge's `OutIdx` changes, to -1 |
| ClipperEngine.Clipper.SwapSidesOf | packages/geometry-utils/src/clipper/clipper.ts:1056-1057 | `swapSides`, then `swapPolyIndexes` when asked |
| ClipperEdge.IsHorizontal | packages/geometry-utils/src/clipper/t-edge.ts:214-216 | see `SetDx`: horizontal iff `Delta.y == 0` |
| ClipperCrossing.IntermediateOrStops | packages/geometry-utils/src/clipper/t-edge.ts:210-212 | `getIntermediate` at the top's Y holds exactly when an unprotected crossing at the top would not stop the edge, and an intermediate edge never stops at a crossing on that Y |
| ClipperEdge.TopX | packages/geometry-utils/src/clipper/t-edge.ts:159-163 | at the top's Y the answer is exactly the top's X |
| ClipperEdge.InsertsBeforeByCurrentX | packages/geometry-utils/src/clipper/t-edge.ts:313-318 | for distinct current X, `insertsBefore` is `<` on current X and antisymmetric |
| ClipperEdge.SlopesEqualSymmetric | packages/geometry-utils/src/clipper/t-edge.ts:380-384 | `slopesEqual` on exact cross products is symmetric |
| ClipperEdge.SlopesEqualMeansSameDx | packages/geometry-utils/src/clipper/t-edge.ts:380-384 | on non-horizontal edges with exact `Dx`, equal slopes iff equal `Dx` |
| ClipperEdge.ContributingMeansKeptBoundary | packages/geometry-utils/src/clipper/t-edge.ts:218-311 | `getContributing` holds iff the edge is on its own set's boundary by its fill rule and the clip type keeps that boundary given whether the edge is inside the other set |
| ClipperEdge.FillRuleGuardsContribution | packages/geometry-utils/src/clipper/t-edge.ts:230-251 | a contributing edge passes its fill-rule test: even-odd rejects only open edges with count other than 1, non-zero needs magnitude 1, positive 1, negative -1 |
| ClipperEdge.UnionComplementsIntersection | packages/geometry-utils/src/clipper/t-edge.ts:253-285 | on a boundary edge union keeps exactly what intersection drops |
| ClipperEdge.DifferenceBySet | packages/geometry-utils/src/clipper/t-edge.ts:286-300 | under difference a subject edge is decided as under union and a clip edge as under intersection |
| ClipperEdge.XorKeepsClosedBoundaries | packages/geometry-utils/src/clipper/t-edge.ts:301-310 | under XOR closed boundary edges always contribute and open ones are decided as under union |
| ClipperEdge.SetDx | packages/geometry-utils/src/clipper/t-edge.ts:134-143 | `Delta` is `Top - Bot`, `Dx` is the horizontal marker iff `Delta.y == 0` and otherwise `Delta.x / Delta.y`; nothing else changes |
| ClipperEdge.Reset | packages/geometry-utils/src/clipper/t-edge.ts:145-150 | back at the bottom with the given side and no fragment; nothing else changes |
| ClipperEdge.ReverseHorizontal | packages/geometry-utils/src/clipper/t-edge.ts:89-96 | only `Top.x` and `Bot.x` trade places |
| ClipperEdge.ReverseHorizontalTwice | packages/geometry-utils/src/clipper/t-edge.ts:89-96 | reversing twice restores the edge |
| ClipperEdge.Init | packages/geometry-utils/src/clipper/t-edge.ts:47-54 | only this edge changes: its ring links, current point and unassigned `OutIdx` |
| ClipperEdge.InitFromPolyType | packages/geometry-utils/src/clipper/t-edge.ts:56-76 | of the two endpoints the one with larger y becomes `Bot`, so `Bot.y >= Top.y`; `Delta`, `Dx` as `setDx` says and the poly type set; no other edge changes |
| ClipperEdge.Remove | packages/geometry-utils/src/clipper/t-edge.ts:78-87 | the neighbours point past the edge, its `Next`/`Prev` are nulled, the old `Next` is returned, nothing else changes |
| ClipperEdge.RemoveFromRing | packages/geometry-utils/src/clipper/t-edge.ts:78-87 | on a ring of two or more edges `remove` leaves the ring without that edge |
| ClipperEdge.DeleteFrom | packages/geometry-utils/src/clipper/t-edge.ts:165-208 | `deleteFromAEL`/`deleteFromSEL`: a detached non-head edge changes nothing; otherwise the edge is unlinked with both links nulled, the new head is returned, and a well-formed list loses exactly that member |
| ClipperEdge.SwapPositions | packages/geometry-utils/src/clipper/t-edge.ts:386-543 | `swapPositionsInAEL`/`swapPositionsInSEL`: refuses and changes nothing iff either edge is not on the list; otherwise, adjacent or not, the two members trade places in a well-formed list and only that list's links change |
| ClipperEdge.SwapWritesChain | packages/geometry-utils/src/clipper/t-edge.ts:386-543 | both branches' writes leave the chain with the two members exchanged |
| ClipperEdge.HeadAfterSwap | packages/geometry-utils/src/clipper/clipper.ts:1698-1720 | the head picked after a swap is the head of the swapped chain |
| ClipperEdge.CopyLinksToSel | packages/geometry-utils/src/clipper/t-edge.ts:152-157 | the edge's SEL links become its AEL links, the AEL successor is returned, no other edge changes |
| ClipperEdge.SidesSwapped | packages/geometry-utils/src/clipper/t-edge.ts:545-549 | the two edges trade `Side` and nothing else changes |
| ClipperEdge.PolyIndexesSwapped | packages/geometry-utils/src/clipper/t-edge.ts:550-554 | the two edges trade `OutIdx` and nothing else changes |
| ClipperEdge.SidesSwappedTwice | packages/geometry-utils/src/clipper/t-edge.ts:545-549 | `swapSides` is an involution |
| ClipperEdge.PolyIndexesSwappedTwice | packages/geometry-utils/src/clipper/t-edge.ts:550-554 | `swapPolyIndexes` is an involution |
| ClipperEdge.SwapSides | packages/geometry-utils/src/clipper/t-edge.ts:545-549 | `swapSides` on the arena |
| ClipperEdge.SwapPolyIndexes | packages/geometry-utils/src/clipper/t-edge.ts:550-554 | `swapPolyIndexes` on the arena |
| ClipperEdge.ThreadedIn | packages/geometry-utils/src/clipper/clipper.ts:738-758 | threading a non-member in at a position extends the chain by it there and leaves the other list alone |
| GeometryHelpers.PointInPolygon | packages/geometry-utils/src/helpers.ts:7-42 | null for a missing polygon or fewer than 3 points, or when the point is on a vertex or edge; otherwise the parity of the ray crossings |
| GeometryHelpers.GetPolygonBounds | packages/geometry-utils/src/helpers.ts:45-64 | null iff fewer than 3 points; otherwise `x`, `y` are the coordinate minima and `width`, `height` are max - min, so non-negative |
| GeometryHelpers.PolygonArea | packages/geometry-utils/src/helpers.ts:68-82 | the loop computes half the wrap-around shoelace sum, 0 for an empty polygon |
| GeometryHelpers.AreaOfReversed | packages/geometry-utils/src/helpers.ts:68-82 | reversing the vertex order negates the area: its sign encodes the winding direction |
| GeometryHelpers.FirstContainerIsLowest | packages/geometry-utils/src/helpers.ts:95-107 | the container found is the lowest-indexed other polygon containing the first vertex |
| GeometryHelpers.AssignChildren | packages/geometry-utils/src/helpers.ts:95-116 | each contained polygon is appended to its container's `children`, which is created when absent; uncontained ones are the parents |
| GeometryHelpers.KeepParents | packages/geometry-utils/src/helpers.ts:118-127 | the kept list is the parents in their original order |
| GeometryHelpers.NestPolygons | packages/geometry-utils/src/helpers.ts:85-135 | the result holds exactly the uncontained polygons in their original order |
| GeometryHelpers.ParentsAreUncontained | packages/geometry-utils/src/helpers.ts:95-127 | the kept polygons are exactly those no other polygon contains |
| GeometryHelpers.LegacyToPolygonNode | packages/geometry-utils/src/helpers.ts:226-239 | `memSeg` interleaves x and y of each point; a missing or zero source becomes -1 and a missing rotation 0 |
| GeometryHelpers.UnflattenFlatten | packages/geometry-utils/src/helpers.ts:226-239 | the flat array gives back the points |
| GeometryHelpers.LegacyToPolygonNodes | packages/geometry-utils/src/helpers.ts:241-255 | a missing list gives []; otherwise count and order are kept and every node mirrors its polygon, children converted recursively |
| NfpCaching.NfpStore.Init | packages/polygon-packer/src/nfp-store.ts:13-40 | `ids` are the placement ids in order, each part's rotation is set, the pairs queued are the requested keys not cached, and the new cache is the cached requested keys |
| NfpCaching.RequestedCount | packages/polygon-packer/src/nfp-store.ts:26-36 | part i requests one bin key and one pair key per earlier part: n(n+1)/2 keys in all |
| NfpCaching.RequestedShape | packages/polygon-packer/src/nfp-store.ts:26-36 | a requested key is a bin key (A = bin, rotation 0, inside) or a pair key (outside) of an earlier and a later part |
| NfpCaching.NfpStore.UpdateCache | packages/polygon-packer/src/nfp-store.ts:64-87 | an absent key queues its pair; a cached key is copied to the new cache and nothing is queued |
| NfpCaching.KeptOrQueued | packages/polygon-packer/src/nfp-store.ts:80-86 | a requested key is kept iff it is cached and queued iff it is not |
| NfpCaching.KeptNeverGrows | packages/polygon-packer/src/nfp-store.ts:21-39 | the cache after `init` is never larger than before |
| NfpCaching.NfpStore.Update | packages/polygon-packer/src/nfp-store.ts:42-62 | a null array changes nothing; otherwise every non-null entry is stored under its key |
| NfpCaching.StoredLookup | packages/polygon-packer/src/nfp-store.ts:42-62 | a key is present after `update` iff it was before or some entry has it, and its value is the last such entry's, else the old one |
| NfpCaching.NfpStore.Clean | packages/polygon-packer/src/nfp-store.ts:89-94 | cache, pairs and ids emptied and the individual cleared |
| WorkerSlots.WorkerPool.constructor | packages/polygon-packer/src/parallel/worker-pool.ts:19-27 | `workerCount` slots (4 without a hardware hint), all free, every worker null |
| WorkerSlots.WorkerPool.Update | packages/polygon-packer/src/parallel/worker-pool.ts:29-43 | every slot freed; workers recreated and the terminated flag cleared only if the pool was terminated |
| WorkerSlots.WorkerPool.Spawn | packages/polygon-packer/src/parallel/worker-pool.ts:45-57 | a given id is returned with nothing changed; otherwise the lowest free slot is claimed and returned, or -1 with nothing changed |
| WorkerSlots.SpawnOrder | packages/polygon-packer/src/parallel/worker-pool.ts:50-56 | the slot chosen is the first free one, -1 when all are used |
| WorkerSlots.WorkerPool.Trigger | packages/polygon-packer/src/parallel/worker-pool.ts:59-74 | id -1 answers false without dispatching; a missing worker is an error; otherwise the payload is dispatched to that worker |
| WorkerSlots.WorkerPool.Clean | packages/polygon-packer/src/parallel/worker-pool.ts:76-78 | slot `id` is freed and no other slot changes |
| WorkerSlots.WorkerPool.TerminateAll | packages/polygon-packer/src/parallel/worker-pool.ts:80-92 | every slot freed, every worker terminated and nulled, the pool marked terminated |
| WorkerSlots.WorkerPool.IsEmpty | packages/polygon-packer/src/parallel/worker-pool.ts:94-96 | true iff no slot is free |
| AsyncOperation.Operation.constructor | packages/polygon-packer/src/parallel/opertaion.ts:9-14 | SUCCESS iff the initial result is truthy, else NONE, with both queues empty |
| AsyncOperation.Operation.Resolve | packages/polygon-packer/src/parallel/opertaion.ts:16-18 | status SUCCESS and the result stored; the success queue runs in order with the value and both queues empty |
| AsyncOperation.Operation.Reject | packages/polygon-packer/src/parallel/opertaion.ts:20-22 | status ERROR and the result stored; the error queue runs in order and both queues empty |
| AsyncOperation.Operation.Then | packages/polygon-packer/src/parallel/opertaion.ts:24-45 | settled: the matching callback runs at once on the result and nothing is queued; pending: `resolve` is queued if given, and `reject` only when `resolve` is given too |
| AsyncOperation.Operation.Proceed | packages/polygon-packer/src/parallel/opertaion.ts:47-62 | status and result set, the matching queue run in registration order, both queues emptied |
| AsyncOperation.CallAllAppend | packages/polygon-packer/src/parallel/opertaion.ts:51-59 | running two queued lists one after the other is running their concatenation |
| AsyncOperation.SettleTwice | packages/polygon-packer/src/parallel/opertaion.ts:47-49 | nothing stops a second settlement: it overwrites status and result, and the first queue ran only once |
| SvgPathSegConstants.SegmentNamesByCase | packages/svg-parser/src/svg-path-seg/constants.ts:4-24 | every letter is mapped; `z` to ClosePath, upper-case letters to `…Abs` names and lower-case ones to `…Rel` names |
| SvgPathSegConstants.SegmentNamesDistinct | packages/svg-parser/src/svg-path-seg/constants.ts:4-24 | no two letters share a name |
| SvgPathSegConstants.LastEntryWins | packages/svg-parser/src/svg-path-seg/constants.ts:26 | a map built from entries holds a key iff an entry lists it, with the value of the last such entry |
| SvgPathSegConstants.TypeToTagDuplicateKey | packages/svg-parser/src/svg-path-seg/constants.ts:39-43 | LINETO_VERTICAL_REL is listed with `H` and then with `v`; it maps to `v`, and no type maps to `H` |
| SvgPathSegConstants.TypeToTagHorizontalMismatch | packages/svg-parser/src/svg-path-seg/constants.ts:26-46 | LINETO_HORIZONTAL_ABS maps to lower-case `h`, LINETO_HORIZONTAL_REL has no entry, CLOSEPATH maps to `z` |
| SvgPathSegConstants.TypeToTagByCase | packages/svg-parser/src/svg-path-seg/constants.ts:27-45 | every other type is present, upper-case exactly for the absolute ones |
| SvgPathSegConstants.CorrectedTypeToTagMatchesCase | packages/svg-parser/src/svg-path-seg/constants.ts:26-46 | with the horizontal rows corrected every type but UNKNOWN has a letter, upper-case exactly for the absolute types, and CLOSEPATH has `z` |

## Left out

- ClipperEngine.Clipper.ProcessHorizontals: it passes over an SEL edge that an earlier horizontal
  has already taken off the AEL (a horizontal maxima pair). The source processes it anyway,
  walking from links `deleteFromAEL` has nulled.
- ClipperEngine.Clipper.ProcessHorizontal: it requires the bound shape that the base class builds
  from the input paths (ghost `rank` and `bound`: `NextInLML` chains end, and at most one edge
  of a bound is active). The base class is not part of this model.
- ClipperEngine.Clipper.ProcessHorizontal: its contract states the AEL's members afterwards, not
  their order. The order is stated step by step by `PassEdge` and `ReplaceBySuccessor`.
- ClipperEngine.Clipper.ProcessHorizontal: the output points and joins of the run are stated by
  its steps (`AdvanceHorizontal`, `FinishHorizontal`, `ClimbOffHorizontal`, `CrossMaxima`,
  `CrossProtected`) and not composed into its own contract, nor into those of `HorizontalPass`,
  `MeetEdge`, `PassEdge` and `LeaveWithPair`.
- ClipperEngine.Clipper.ProcessHorizontals: the output points and joins of the runs it visits are
  not composed into its contract; each run's steps state them (see `ProcessHorizontal`).
- ClipperEngine.Clipper.LeaveWithPair: a maxima pair off the AEL that still holds a fragment, or
  still has AEL links, fails. The source would cross or unlink an inactive edge there.
- The ghost-join overlap matching in `PrepareHorzJoins` is commented out in the source, so only
  the ghost joins are recorded. `ProcessHorizontal` recomputes the direction of the last
  horizontal before finishing, which gives the value the source's loop left.
- The body of the sweep in `ExecuteInternal` (clipper.ts:66-128) is not modelled. This covers
  `Reset`, `PopScanbeam`, `InsertLocalMinimaIntoAEL`, `ProcessEdgesAtTopOfScanbeam`, `DoMaxima`
  and `IsMaxima`, and the orientation fix-up, `fixupOutPolygon` and `DoSimplePolygons`. They rest
  on the local-minima list and `OutRec` methods that are not part of this model. Its outcome
  and the output records it builds are parameters (`sweep`, `swept`) of `Execute`, required only
  to be well formed; the `finally` around it and the export of those records are modelled.
- JoinCommonEdges, JoinPoints and JoinHorz (clipper.ts:287-630) are not modelled. They rest on
  `OutRec` geometry (`param1RightOfParam2`, `pointIn`, `containsPoly`, the hole state), which is
  not part of this model.
- The floating-point geometry is not modelled:
  - `Dx` is an exact rational, and `TopX`'s rounding is an oracle.
  - `intersectPoint` and the band-bottom clamp are oracles, so `BuildIntersectList` takes the
    crossing point from them.
  - The Int64/Int128 branches of `slopesEqual` are one exact integer cross product.
- The collaborators of the engine are parameters (`Collaborators`): `setHoleState`,
  `param1RightOfParam2`, the export of a record (`export`), the slope test of points and the
  crossing point. `showError` becomes a failure result.
- The tolerance tests of `pointInPolygon` (`almostEqual`, `onSegment`, `interpolateX`) are an
  oracle (`Tolerance`). `getPlacementData`, `getAdam`, `randomAngle`, `rotateNode` and
  `getNfpPair` are not modelled: they rely on a polygon class, random numbers and float rotation
  that are not part of this model.
- GeometryHelpers.NestPolygons: it returns the kept polygons as a new sequence, where the source
  splices the input array in place. Its recursion into children is bounded by a `fuel` depth
  argument, so nesting deeper than the fuel is not followed.
- GeometryHelpers.NestPolygons: its contract does not state the children lists it leaves. The
  source shares polygon objects between lists, so a deeper call can rewrite a children list
  after it was assigned. The first level of assignment is stated by `AssignChildren`.
- GeometryHelpers.NestPolygons: it requires every polygon to have at least one point (`Closed`).
  The source reads the first point of each polygon, which is `undefined` for an empty one, and
  passes it to `pointInPolygon`.
- WorkerSlots.WorkerPool.Clean: it requires an id inside the pool. The source writes any index of
  its JavaScript array, which adds a property for an id outside it.
- The `nfpPairs` getter of nfp-store.ts (lines 113-115) returns the `nfpPairs` field, which the
  model reads directly.
- Worker creation, `clone`, `trigger` and `terminate` of the workers are foreign calls. Workers
  are opaque values, and the calls made on them are recorded as events.
- The callbacks of `Operation` are opaque ids, and their invocations are recorded as a trace.
  NFP cache keys are a datatype instead of JSON strings.
- `parallel.ts`, the SVG parser, the user interface and the type-only files are outside the
  modelled core.

## Findings

| source | as written | input that shows it | evidently intended | confidence | as-written member | corrected member |
|---|---|---|---|---|---|---|
| packages/svg-parser/src/svg-path-seg/constants.ts:39-40 | row 39 maps LINETO_VERTICAL_REL to `H` (overwritten by row 43), and row 40 maps LINETO_HORIZONTAL_ABS to `h` | looking up LINETO_HORIZONTAL_REL gives no tag, LINETO_HORIZONTAL_ABS gives the relative letter `h`, and no type yields `H` | LINETO_HORIZONTAL_ABS to `H` and LINETO_HORIZONTAL_REL to `h` | high (not executed) | SvgPathSegConstants.TypeToTagHorizontalMismatch | SvgPathSegConstants.CorrectedTypeToTagMatchesCase |
