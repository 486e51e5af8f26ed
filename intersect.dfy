/**
 * The intersection list of the clipping engine (clipper.ts): its nodes, the
 * `IntersectNodeSort` order, and the specification of the two passes over
 * it.
 *
 * Edge lists are described here by their ghost `order` (member indices from
 * head to tail).  A node swaps its two edges; `Replay` applies a list of
 * nodes to an order one after the other, which is what `ProcessIntersectList`
 * does to the AEL and `FixupIntersectionOrder` to the SEL.
 */
module ClipperIntersect {
  import opened ClipperEdge

  /** `IntersectNode`: the two edges that cross and where. */
  datatype IntersectNode = IntersectNode(Edge1: int, Edge2: int, Pt: IntPoint)

  /**
   * `IntersectNodeSort`: the comparator handed to `Array.prototype.sort`;
   * negative puts `node1` first, so the node lower on the plane (larger Y)
   * comes first.
   */
  function IntersectNodeSort(node1: IntersectNode, node2: IntersectNode): (d: int)
    ensures d < 0 <==> node1.Pt.y > node2.Pt.y
    ensures d == 0 <==> node1.Pt.y == node2.Pt.y
  {
    node2.Pt.y - node1.Pt.y
  }

  /** No node is placed before one that the comparator puts ahead of it. */
  predicate BottomFirst(nodes: seq<IntersectNode>)
  {
    forall i, j :: 0 <= i < j < |nodes| ==> IntersectNodeSort(nodes[i], nodes[j]) <= 0
  }

  /** Inserts `x` before the first node the comparator puts after it (after any equal ones). */
  function InsertNode(x: IntersectNode, s: seq<IntersectNode>): (r: seq<IntersectNode>)
    ensures multiset(r) == multiset(s) + multiset{x}
    ensures |r| == |s| + 1 && forall y :: y in r ==> y == x || y in s
  {
    if s == [] then [x]
    else if IntersectNodeSort(s[0], x) > 0 then [x] + s
    else
      assert s == [s[0]] + s[1..];
      [s[0]] + InsertNode(x, s[1..])
  }

  /** The list as the stable sort by `IntersectNodeSort` leaves it. */
  function SortNodes(s: seq<IntersectNode>): (r: seq<IntersectNode>)
    ensures multiset(r) == multiset(s)
  {
    if s == [] then []
    else
      assert s == s[..|s| - 1] + [s[|s| - 1]];
      InsertNode(s[|s| - 1], SortNodes(s[..|s| - 1]))
  }

  /** Every node of a bottom-first list is at or above its first node. */
  lemma HeadIsLowest(s: seq<IntersectNode>)
    requires BottomFirst(s) && s != []
    ensures forall y :: y in s ==> y.Pt.y <= s[0].Pt.y
  {
    forall y | y in s
      ensures y.Pt.y <= s[0].Pt.y
    {
      var m :| 0 <= m < |s| && s[m] == y;
      if m > 0 {
        assert IntersectNodeSort(s[0], s[m]) <= 0;
      }
    }
  }

  /** A node at or below every node of a bottom-first list can go in front of it. */
  lemma ConsSorted(h: IntersectNode, t: seq<IntersectNode>)
    requires BottomFirst(t) && forall y :: y in t ==> y.Pt.y <= h.Pt.y
    ensures BottomFirst([h] + t)
  {
    var r := [h] + t;
    forall i, j | 0 <= i < j < |r|
      ensures IntersectNodeSort(r[i], r[j]) <= 0
    {
      assert r[j] == t[j - 1];
      if i > 0 {
        assert r[i] == t[i - 1];
      } else {
        assert r[j] in t;
      }
    }
  }

  lemma {:induction false} InsertNodeSorted(x: IntersectNode, s: seq<IntersectNode>)
    requires BottomFirst(s)
    ensures BottomFirst(InsertNode(x, s))
  {
    if s == [] {
    } else if IntersectNodeSort(s[0], x) > 0 {
      HeadIsLowest(s);
      ConsSorted(x, s);
    } else {
      var t := InsertNode(x, s[1..]);
      assert BottomFirst(s[1..]) by {
        forall i, j | 0 <= i < j < |s[1..]|
          ensures IntersectNodeSort(s[1..][i], s[1..][j]) <= 0
        {
          assert s[1..][i] == s[i + 1] && s[1..][j] == s[j + 1];
        }
      }
      InsertNodeSorted(x, s[1..]);
      HeadIsLowest(s);
      forall y | y in t
        ensures y.Pt.y <= s[0].Pt.y
      {
        if y != x {
          assert y in s[1..];
          assert y in s;
        }
      }
      ConsSorted(s[0], t);
    }
  }

  /** The sorted list is ordered bottom-most first and holds the same nodes. */
  lemma {:induction false} SortNodesSorted(s: seq<IntersectNode>)
    ensures BottomFirst(SortNodes(s))
  {
    if s != [] {
      SortNodesSorted(s[..|s| - 1]);
      InsertNodeSorted(s[|s| - 1], SortNodes(s[..|s| - 1]));
    }
  }

  // ---------------------------------------------------------------------
  // Positions and swaps
  // ---------------------------------------------------------------------

  /** The first position of `x` in `order`. */
  function IndexOf(order: seq<int>, x: int): (i: int)
    requires x in order
    ensures 0 <= i < |order| && order[i] == x
    ensures forall j :: 0 <= j < i ==> order[j] != x
  {
    if order[0] == x then 0 else 1 + IndexOf(order[1..], x)
  }

  /** In a list without repeats, `IndexOf` is the one position holding `x`. */
  lemma IndexOfUnique(order: seq<int>, x: int, i: int)
    requires Distinct(order) && 0 <= i < |order| && order[i] == x
    ensures IndexOf(order, x) == i
  {
  }

  /** Both edges of the node are members of `order`. */
  predicate NodeIn(n: IntersectNode, order: seq<int>)
  {
    n.Edge1 in order && n.Edge2 in order
  }

  predicate AllIn(nodes: seq<IntersectNode>, order: seq<int>)
  {
    forall i :: 0 <= i < |nodes| ==> NodeIn(nodes[i], order)
  }

  /** `edgesAdjacent`: the node's two edges are next to each other in the list, in either order. */
  predicate Adjacent(order: seq<int>, n: IntersectNode)
  {
    NodeIn(n, order) &&
    (IndexOf(order, n.Edge2) == IndexOf(order, n.Edge1) + 1 || IndexOf(order, n.Edge1) == IndexOf(order, n.Edge2) + 1)
  }

  /** The order after the node's two edges trade places. */
  function Exchange(order: seq<int>, n: IntersectNode): (r: seq<int>)
    requires NodeIn(n, order)
    ensures |r| == |order|
  {
    order[IndexOf(order, n.Edge1) := n.Edge2][IndexOf(order, n.Edge2) := n.Edge1]
  }

  /** Trading places keeps the members. */
  lemma ExchangeKeeps(order: seq<int>, n: IntersectNode, x: int)
    requires NodeIn(n, order)
    ensures x in Exchange(order, n) <==> x in order
  {
    var i, j := IndexOf(order, n.Edge1), IndexOf(order, n.Edge2);
    var r := Exchange(order, n);
    if x in order {
      var k :| 0 <= k < |order| && order[k] == x;
      var rk := if k == i then j else if k == j then i else k;
      assert r[rk] == x;
    }
    if x in r {
      var k :| 0 <= k < |r| && r[k] == x;
      var ok := if k == i then j else if k == j then i else k;
      assert order[ok] == x;
    }
  }

  lemma ExchangeDistinct(order: seq<int>, n: IntersectNode)
    requires NodeIn(n, order) && Distinct(order)
    ensures Distinct(Exchange(order, n))
  {
    var i, j := IndexOf(order, n.Edge1), IndexOf(order, n.Edge2);
    var r := Exchange(order, n);
    forall a, b | 0 <= a < b < |r|
      ensures r[a] != r[b]
    {
      var oa := if a == i then j else if a == j then i else a;
      var ob := if b == i then j else if b == j then i else b;
      assert r[a] == order[oa] && r[b] == order[ob];
    }
  }

  /** Every node's edges stay members as earlier nodes are applied. */
  predicate Playable(order: seq<int>, nodes: seq<IntersectNode>)
    decreases |nodes|
  {
    nodes == [] || (NodeIn(nodes[0], order) && Playable(Exchange(order, nodes[0]), nodes[1..]))
  }

  lemma {:induction false} AllInPlayable(order: seq<int>, nodes: seq<IntersectNode>)
    requires AllIn(nodes, order)
    ensures Playable(order, nodes)
    decreases |nodes|
  {
    if nodes != [] {
      var o := Exchange(order, nodes[0]);
      forall i | 0 <= i < |nodes[1..]|
        ensures NodeIn(nodes[1..][i], o)
      {
        ExchangeKeeps(order, nodes[0], nodes[i + 1].Edge1);
        ExchangeKeeps(order, nodes[0], nodes[i + 1].Edge2);
      }
      AllInPlayable(o, nodes[1..]);
    }
  }

  /** The order after applying the nodes' swaps one after the other. */
  function Replay(order: seq<int>, nodes: seq<IntersectNode>): (r: seq<int>)
    requires Playable(order, nodes)
    ensures |r| == |order|
    decreases |nodes|
  {
    if nodes == [] then order else Replay(Exchange(order, nodes[0]), nodes[1..])
  }

  /** Applying one more node swaps its edges in the order reached so far. */
  lemma {:induction false} ReplaySnoc(order: seq<int>, nodes: seq<IntersectNode>, n: IntersectNode)
    requires Playable(order, nodes) && NodeIn(n, Replay(order, nodes))
    ensures Playable(order, nodes + [n])
    ensures Replay(order, nodes + [n]) == Exchange(Replay(order, nodes), n)
    decreases |nodes|
  {
    if nodes == [] {
      assert [n][1..] == [];
    } else {
      assert (nodes + [n])[1..] == nodes[1..] + [n];
      ReplaySnoc(Exchange(order, nodes[0]), nodes[1..], n);
    }
  }

  lemma {:induction false} ReplayDistinct(order: seq<int>, nodes: seq<IntersectNode>)
    requires Playable(order, nodes) && Distinct(order)
    ensures Distinct(Replay(order, nodes))
    decreases |nodes|
  {
    if nodes != [] {
      ExchangeDistinct(order, nodes[0]);
      ReplayDistinct(Exchange(order, nodes[0]), nodes[1..]);
    }
  }

  // ---------------------------------------------------------------------
  // FixupIntersectionOrder
  // ---------------------------------------------------------------------

  /** The first position from `j` on whose node is adjacent in `order`, or `|list|`. */
  function FirstAdjacent(order: seq<int>, list: seq<IntersectNode>, j: int): (k: int)
    requires 0 <= j <= |list|
    ensures j <= k <= |list|
    ensures forall m :: j <= m < k ==> !Adjacent(order, list[m])
    ensures k < |list| ==> Adjacent(order, list[k])
    decreases |list| - j
  {
    if j == |list| || Adjacent(order, list[j]) then j else FirstAdjacent(order, list, j + 1)
  }

  /** Every node of `a` is one of the nodes of `b`. */
  predicate Within(a: seq<IntersectNode>, b: seq<IntersectNode>)
  {
    forall m :: 0 <= m < |a| ==> a[m] in b
  }

  lemma SwappedWithin(list: seq<IntersectNode>, i: int, j: int)
    requires 0 <= i < |list| && 0 <= j < |list|
    ensures Within(list[i := list[j]][j := list[i]], list)
  {
    var l := list[i := list[j]][j := list[i]];
    forall m | 0 <= m < |l|
      ensures l[m] in list
    {
      var om := if m == j then i else if m == i then j else m;
      assert l[m] == list[om];
    }
  }

  lemma WithinTrans(a: seq<IntersectNode>, b: seq<IntersectNode>, c: seq<IntersectNode>)
    requires Within(a, b) && Within(b, c)
    ensures Within(a, c)
  {
    forall m | 0 <= m < |a|
      ensures a[m] in c
    {
      var k :| 0 <= k < |b| && b[k] == a[m];
    }
  }

  lemma AllInWithin(a: seq<IntersectNode>, b: seq<IntersectNode>, order: seq<int>)
    requires Within(a, b) && AllIn(b, order)
    ensures AllIn(a, order)
  {
    forall m | 0 <= m < |a|
      ensures NodeIn(a[m], order)
    {
      var k :| 0 <= k < |b| && b[k] == a[m];
    }
  }

  lemma AllInExchange(order: seq<int>, l: seq<IntersectNode>)
    requires AllIn(l, order)
    ensures forall i :: 0 <= i < |l| ==> AllIn(l, Exchange(order, l[i]))
  {
    forall i, m | 0 <= i < |l| && 0 <= m < |l|
      ensures NodeIn(l[m], Exchange(order, l[i]))
    {
      ExchangeKeeps(order, l[i], l[m].Edge1);
      ExchangeKeeps(order, l[i], l[m].Edge2);
    }
  }

  /**
   * The repair from position `i` on, `order` being the SEL as the nodes
   * before `i` left it: a node whose edges are not adjacent trades places
   * with the first later node whose edges are, and the node at `i` is then
   * applied.  The result is the list as it ends up and the position where
   * the repair stopped (`|list|` when it went through).
   */
  function FixupFrom(order: seq<int>, list: seq<IntersectNode>, i: int): (r: (seq<IntersectNode>, int))
    requires 0 <= i <= |list| && AllIn(list, order)
    ensures |r.0| == |list| && Within(r.0, list) && i <= r.1 <= |list|
    ensures r.0[..i] == list[..i]
    decreases |list| - i
  {
    if i == |list| then (list, i)
    else
      var j := FirstAdjacent(order, list, i);
      if j == |list| then (list, i)
      else
        var l := list[i := list[j]][j := list[i]];
        SwapStep(order, list, i, j);
        var r := FixupFrom(Exchange(order, l[i]), l, i + 1);
        WithinTrans(r.0, l, list);
        assert r.0[..i] == r.0[..i + 1][..i] == l[..i + 1][..i];
        r
  }

  /** Exchanging positions `i` and `j` of the list keeps its nodes and their membership. */
  lemma SwapStep(order: seq<int>, list: seq<IntersectNode>, i: int, j: int)
    requires 0 <= i < |list| && 0 <= j < |list| && AllIn(list, order)
    ensures var l := list[i := list[j]][j := list[i]];
      Within(l, list) && multiset(l) == multiset(list) && AllIn(l, order) && NodeIn(l[i], order) &&
      AllIn(l, Exchange(order, l[i]))
  {
    var l := list[i := list[j]][j := list[i]];
    SwappedWithin(list, i, j);
    AllInWithin(l, list, order);
    AllInExchange(order, l);
  }

  /** The whole repair of a list against the SEL `order` it starts from. */
  function Fixup(order: seq<int>, list: seq<IntersectNode>): (r: (seq<IntersectNode>, int))
    requires AllIn(list, order)
  {
    FixupFrom(order, list, 0)
  }

  /** One step of the repair hands the induction a list whose first `i + 1` nodes are done. */
  lemma {:induction false} FixupStep(order0: seq<int>, list: seq<IntersectNode>, i: int, j: int)
    requires 0 <= i < j + 1 && j < |list| && AllIn(list, order0) && Playable(order0, list[..i])
    requires AllIn(list, Replay(order0, list[..i]))
    requires forall k :: 0 <= k < i ==> Playable(order0, list[..k]) && Adjacent(Replay(order0, list[..k]), list[k])
    requires Adjacent(Replay(order0, list[..i]), list[j])
    ensures var l := list[i := list[j]][j := list[i]];
      AllIn(l, order0) && Playable(order0, l[..i + 1]) &&
      Replay(order0, l[..i + 1]) == Exchange(Replay(order0, list[..i]), l[i]) &&
      AllIn(l, Replay(order0, l[..i + 1])) &&
      forall k :: 0 <= k < i + 1 ==> Playable(order0, l[..k]) && Adjacent(Replay(order0, l[..k]), l[k])
  {
    var order := Replay(order0, list[..i]);
    var l := list[i := list[j]][j := list[i]];
    SwappedWithin(list, i, j);
    AllInWithin(l, list, order0);
    AllInWithin(l, list, order);
    assert l[..i] == list[..i];
    assert l[..i + 1] == list[..i] + [l[i]];
    ReplaySnoc(order0, list[..i], l[i]);
    AllInExchange(order, l);
    forall k | 0 <= k < i + 1
      ensures Playable(order0, l[..k]) && Adjacent(Replay(order0, l[..k]), l[k])
    {
      if k < i {
        assert l[..k] == list[..k] && l[k] == list[k];
      }
    }
  }

  /**
   * What the repair achieves, by induction on the position: every node up to
   * where it stopped joins two edges adjacent in the SEL as the earlier
   * nodes left it; and if it stopped early, no node from there on is
   * adjacent at that point.
   */
  lemma {:induction false} FixupFromAdjacent(order0: seq<int>, list: seq<IntersectNode>, i: int)
    requires 0 <= i <= |list| && AllIn(list, order0) && Playable(order0, list[..i])
    requires AllIn(list, Replay(order0, list[..i]))
    requires forall k :: 0 <= k < i ==> Playable(order0, list[..k]) && Adjacent(Replay(order0, list[..k]), list[k])
    ensures var r := FixupFrom(Replay(order0, list[..i]), list, i);
      Playable(order0, r.0[..r.1]) &&
      (forall k :: 0 <= k < r.1 ==> Playable(order0, r.0[..k]) && Adjacent(Replay(order0, r.0[..k]), r.0[k])) &&
      (r.1 < |list| ==> forall m :: r.1 <= m < |list| ==> !Adjacent(Replay(order0, r.0[..r.1]), r.0[m]))
    decreases |list| - i
  {
    var order := Replay(order0, list[..i]);
    if i < |list| {
      var j := FirstAdjacent(order, list, i);
      if j < |list| {
        var l := list[i := list[j]][j := list[i]];
        FixupStep(order0, list, i, j);
        FixupFromAdjacent(order0, l, i + 1);
        assert FixupFrom(order, list, i) == FixupFrom(Exchange(order, l[i]), l, i + 1);
      }
    }
  }

  /**
   * `FixupIntersectionOrder`'s promise: the list ends up a rearrangement of
   * the sorted one; each node before the stopping point joins two adjacent
   * edges of the SEL as the nodes before it left it; and it stops early only
   * where no remaining node joins two adjacent edges.
   */
  lemma FixupAdjacent(order: seq<int>, list: seq<IntersectNode>)
    requires AllIn(list, order)
    ensures var r := Fixup(order, list);
      Within(r.0, list) && Playable(order, r.0[..r.1]) &&
      (forall k :: 0 <= k < r.1 ==> Playable(order, r.0[..k]) && Adjacent(Replay(order, r.0[..k]), r.0[k])) &&
      (r.1 < |list| ==> forall m :: r.1 <= m < |list| ==> !Adjacent(Replay(order, r.0[..r.1]), r.0[m]))
  {
    assert list[..0] == [];
    FixupFromAdjacent(order, list, 0);
  }

  /**
   * `edgesAdjacent` reads the SEL links (`Edge1.NextInSEL == Edge2 ||
   * Edge1.PrevInSEL == Edge2`); on a well-formed SEL that is adjacency by
   * position.
   */
  predicate EdgesAdjacent(edges: seq<TEdge>, n: IntersectNode)
    requires 0 <= n.Edge1 < |edges|
  {
    edges[n.Edge1].NextInSEL == n.Edge2 || edges[n.Edge1].PrevInSEL == n.Edge2
  }

  lemma LinkedAdjacent(edges: seq<TEdge>, order: seq<int>, n: IntersectNode)
    requires Chain(edges, SEL, order) && NodeIn(n, order)
    ensures 0 <= n.Edge1 < |edges|
    ensures EdgesAdjacent(edges, n) <==> Adjacent(order, n)
  {
    var i, j := IndexOf(order, n.Edge1), IndexOf(order, n.Edge2);
    assert NextIn(edges[order[i]], SEL) == At(order, i + 1) && PrevIn(edges[order[i]], SEL) == At(order, i - 1);
    assert 0 <= order[j];
    if j == i + 1 || i == j + 1 {
      assert Adjacent(order, n);
    }
    if edges[n.Edge1].NextInSEL == n.Edge2 {
      assert order[i + 1] == order[j];
    }
    if edges[n.Edge1].PrevInSEL == n.Edge2 {
      assert order[i - 1] == order[j];
    }
  }

  // ---------------------------------------------------------------------
  // BuildIntersectList
  // ---------------------------------------------------------------------

  /** Every member of `order` is an index into the arena. */
  predicate InArena(edges: seq<TEdge>, order: seq<int>)
  {
    forall i :: 0 <= i < |order| ==> 0 <= order[i] < |edges|
  }

  /** The edge's current X (set to its X at the top of the band before the bubble sort). */
  function X(edges: seq<TEdge>, e: int): int
    requires 0 <= e < |edges|
  {
    edges[e].Curr.x
  }

  /** The list is in ascending order of current X. */
  predicate SortedByX(edges: seq<TEdge>, order: seq<int>)
    requires InArena(edges, order)
  {
    forall i, j :: 0 <= i < j < |order| ==> X(edges, order[i]) <= X(edges, order[j])
  }

  /** The node's first edge stands directly before its second in `order`, at a larger X. */
  predicate Inverted(edges: seq<TEdge>, order: seq<int>, n: IntersectNode)
  {
    NodeIn(n, order) && IndexOf(order, n.Edge2) == IndexOf(order, n.Edge1) + 1 &&
    0 <= n.Edge1 < |edges| && 0 <= n.Edge2 < |edges| && X(edges, n.Edge1) > X(edges, n.Edge2)
  }

  /**
   * Each node swaps two neighbours that are out of X order in the list as
   * the earlier nodes left it.
   */
  predicate Inversions(edges: seq<TEdge>, order: seq<int>, nodes: seq<IntersectNode>)
  {
    Playable(order, nodes) &&
    forall k :: 0 <= k < |nodes| ==> Playable(order, nodes[..k]) && Inverted(edges, Replay(order, nodes[..k]), nodes[k])
  }

  /** Recording one more inversion of the list reached so far. */
  lemma InversionsSnoc(edges: seq<TEdge>, order: seq<int>, nodes: seq<IntersectNode>, n: IntersectNode)
    requires Inversions(edges, order, nodes) && Inverted(edges, Replay(order, nodes), n)
    ensures Inversions(edges, order, nodes + [n])
    ensures Replay(order, nodes + [n]) == Exchange(Replay(order, nodes), n)
  {
    ReplaySnoc(order, nodes, n);
    var l := nodes + [n];
    forall k | 0 <= k < |l|
      ensures Playable(order, l[..k]) && Inverted(edges, Replay(order, l[..k]), l[k])
    {
      assert l[..k] == nodes[..k] || k == |nodes|;
      if k == |nodes| {
        assert l[..k] == nodes;
      } else {
        assert l[..k] == nodes[..k];
      }
    }
  }

  /** Swapping positions `k` and `k + 1` of `w` inside `w + tail` is the node's `Exchange`. */
  lemma ExchangeNeighbours(w: seq<int>, tail: seq<int>, k: int, n: IntersectNode)
    requires Distinct(w + tail) && 0 <= k < |w| - 1 && n.Edge1 == w[k] && n.Edge2 == w[k + 1]
    ensures NodeIn(n, w + tail) && IndexOf(w + tail, n.Edge1) == k && IndexOf(w + tail, n.Edge2) == k + 1
    ensures Exchange(w + tail, n) == w[k := w[k + 1]][k + 1 := w[k]] + tail
  {
    var o := w + tail;
    assert o[k] == n.Edge1 && o[k + 1] == n.Edge2;
    IndexOfUnique(o, n.Edge1, k);
    IndexOfUnique(o, n.Edge2, k + 1);
  }

  /**
   * A list of inversions in the order they were found needs no repair: the
   * node at every position already joins two adjacent edges when its turn
   * comes, so `Fixup` keeps the list and goes through.
   */
  lemma {:induction false} InversionsNeedNoFixup(edges: seq<TEdge>, order: seq<int>, nodes: seq<IntersectNode>, i: int)
    requires Inversions(edges, order, nodes) && 0 <= i <= |nodes| && Playable(order, nodes[..i])
    requires AllIn(nodes, Replay(order, nodes[..i]))
    ensures FixupFrom(Replay(order, nodes[..i]), nodes, i) == (nodes, |nodes|)
    decreases |nodes| - i
  {
    if i < |nodes| {
      var o := Replay(order, nodes[..i]);
      assert Inverted(edges, o, nodes[i]);
      assert Adjacent(o, nodes[i]);
      FirstAdjacentIsHere(o, nodes, i);
      assert nodes[i := nodes[i]][i := nodes[i]] == nodes;
      assert nodes[..i + 1] == nodes[..i] + [nodes[i]];
      ReplaySnoc(order, nodes[..i], nodes[i]);
      AllInExchange(o, nodes);
      InversionsNeedNoFixup(edges, order, nodes, i + 1);
    }
  }

  lemma FirstAdjacentIsHere(order: seq<int>, list: seq<IntersectNode>, i: int)
    requires 0 <= i < |list| && Adjacent(order, list[i])
    ensures FirstAdjacent(order, list, i) == i
  {
  }

  /** Hence the whole list as found goes through `Fixup` unchanged. */
  lemma InversionsFixup(edges: seq<TEdge>, order: seq<int>, nodes: seq<IntersectNode>)
    requires Inversions(edges, order, nodes) && AllIn(nodes, order)
    ensures Fixup(order, nodes) == (nodes, |nodes|)
  {
    assert nodes[..0] == [];
    InversionsNeedNoFixup(edges, order, nodes, 0);
  }

  /** Two sorted runs, every member of the first at most every member of the second, make one. */
  lemma SortedJoin(edges: seq<TEdge>, w: seq<int>, tail: seq<int>)
    requires InArena(edges, w) && InArena(edges, tail) && SortedByX(edges, w) && SortedByX(edges, tail)
    requires forall i, j :: 0 <= i < |w| && 0 <= j < |tail| ==> X(edges, w[i]) <= X(edges, tail[j])
    ensures InArena(edges, w + tail) && SortedByX(edges, w + tail)
  {
    var o := w + tail;
    forall i, j | 0 <= i < j < |o|
      ensures X(edges, o[i]) <= X(edges, o[j])
    {
      if j < |w| {
        assert o[i] == w[i] && o[j] == w[j];
      } else if i < |w| {
        assert o[i] == w[i] && o[j] == tail[j - |w|];
      } else {
        assert o[i] == tail[i - |w|] && o[j] == tail[j - |w|];
      }
    }
  }

  /** The inversions and the final order depend on the edges' current X only. */
  lemma KeysKept(a: seq<TEdge>, b: seq<TEdge>, order: seq<int>, nodes: seq<IntersectNode>)
    requires |a| == |b| && forall x :: 0 <= x < |a| ==> a[x].Curr.x == b[x].Curr.x
    requires Inversions(a, order, nodes) && InArena(a, Replay(order, nodes)) && SortedByX(a, Replay(order, nodes))
    ensures Inversions(b, order, nodes) && InArena(b, Replay(order, nodes)) && SortedByX(b, Replay(order, nodes))
  {
    forall k | 0 <= k < |nodes|
      ensures Inverted(b, Replay(order, nodes[..k]), nodes[k])
    {
      assert Inverted(a, Replay(order, nodes[..k]), nodes[k]);
    }
    var o := Replay(order, nodes);
    forall i, j | 0 <= i < j < |o|
      ensures X(b, o[i]) <= X(b, o[j])
    {
      assert X(a, o[i]) <= X(a, o[j]);
    }
  }

  /**
   * What `FixupIntersectionOrder` leaves, from the AEL `ael` and the list
   * `before`: the list `after` and the outcome `ok` are what `Fixup` gives
   * for the sorted list, and the SEL `sel` is the AEL with the nodes up to
   * where the repair stopped applied.
   */
  ghost predicate FixedUp(ael: seq<int>, before: seq<IntersectNode>, after: seq<IntersectNode>, ok: bool, sel: seq<int>)
  {
    match FixupOf(ael, before)
    case (l, k) => 0 <= k <= |l| && after == l && ok == (k == |l|) && Playable(ael, l[..k]) && sel == Replay(ael, l[..k])
  }

  /** `Fixup` of the sorted list, when its nodes are members of `ael`. */
  ghost function FixupOf(ael: seq<int>, before: seq<IntersectNode>): (seq<IntersectNode>, int)
  {
    if AllIn(SortNodes(before), ael) then Fixup(ael, SortNodes(before)) else (before, -1)
  }

  // ---------------------------------------------------------------------
  // The processed list leaves the AEL sorted
  // ---------------------------------------------------------------------

  /** The node crosses `a` and `b`, in either order. */
  predicate SamePair(n: IntersectNode, a: int, b: int)
  {
    (n.Edge1 == a && n.Edge2 == b) || (n.Edge1 == b && n.Edge2 == a)
  }

  /** Whether an odd number of the nodes cross `a` and `b`. */
  function OddCrossings(nodes: seq<IntersectNode>, a: int, b: int): bool
  {
    if nodes == [] then false
    else OddCrossings(nodes[..|nodes| - 1], a, b) != SamePair(nodes[|nodes| - 1], a, b)
  }

  /** `a` stands before `b` in `order`. */
  predicate Before(order: seq<int>, a: int, b: int)
  {
    a in order && b in order && IndexOf(order, a) < IndexOf(order, b)
  }

  /** Each node joins two edges adjacent in the list as the nodes before it left it. */
  predicate AdjacentSteps(order: seq<int>, nodes: seq<IntersectNode>)
  {
    forall k :: 0 <= k < |nodes| ==> Playable(order, nodes[..k]) && Adjacent(Replay(order, nodes[..k]), nodes[k])
  }

  /** Replaying the nodes keeps the members. */
  lemma {:induction false} ReplayKeeps(order: seq<int>, nodes: seq<IntersectNode>, x: int)
    requires Playable(order, nodes)
    ensures x in Replay(order, nodes) <==> x in order
    decreases |nodes|
  {
    if nodes != [] {
      ExchangeKeeps(order, nodes[0], x);
      ReplayKeeps(Exchange(order, nodes[0]), nodes[1..], x);
    }
  }

  /** Where each member of a list without repeats stands after an exchange. */
  lemma ExchangePosition(order: seq<int>, n: IntersectNode, x: int)
    requires Distinct(order) && NodeIn(n, order) && x in order
    ensures Distinct(Exchange(order, n)) && x in Exchange(order, n)
    ensures IndexOf(Exchange(order, n), x) ==
      if x == n.Edge1 then IndexOf(order, n.Edge2) else if x == n.Edge2 then IndexOf(order, n.Edge1) else IndexOf(order, x)
  {
    var i, j := IndexOf(order, n.Edge1), IndexOf(order, n.Edge2);
    var r := Exchange(order, n);
    ExchangeDistinct(order, n);
    var p := IndexOf(order, x);
    var q := if x == n.Edge1 then j else if x == n.Edge2 then i else p;
    if x != n.Edge1 && x != n.Edge2 {
      assert p != i && p != j;
    }
    assert r[q] == x;
    IndexOfUnique(r, x, q);
  }

  /**
   * Exchanging two adjacent members of a list without repeats reverses the
   * order of those two and of no other pair.
   */
  lemma ExchangeAdjacentOrder(order: seq<int>, n: IntersectNode, a: int, b: int)
    requires Distinct(order) && Adjacent(order, n) && a in order && b in order && a != b
    ensures Distinct(Exchange(order, n)) && a in Exchange(order, n) && b in Exchange(order, n)
    ensures Before(Exchange(order, n), a, b) <==> (Before(order, a, b) != SamePair(n, a, b))
  {
    ExchangePosition(order, n, a);
    ExchangePosition(order, n, b);
    var pa, pb := IndexOf(order, a), IndexOf(order, b);
    IndexOfUnique(order, b, pb);
    IndexOfUnique(order, a, pa);
  }

  /**
   * Replaying adjacent exchanges reverses the order of a pair exactly when
   * an odd number of the nodes cross that pair.
   */
  lemma {:induction false} ReplayOrder(order: seq<int>, nodes: seq<IntersectNode>, a: int, b: int)
    requires Distinct(order) && Playable(order, nodes) && AdjacentSteps(order, nodes)
    requires a in order && b in order && a != b
    ensures Distinct(Replay(order, nodes)) && a in Replay(order, nodes) && b in Replay(order, nodes)
    ensures Before(Replay(order, nodes), a, b) <==> (Before(order, a, b) != OddCrossings(nodes, a, b))
    decreases |nodes|
  {
    if nodes != [] {
      var m := |nodes| - 1;
      var init := nodes[..m];
      AdjacentStepsPrefix(order, nodes, m);
      assert Playable(order, init) && Adjacent(Replay(order, init), nodes[m]);
      ReplayOrder(order, init, a, b);
      ReplaySnoc(order, init, nodes[m]);
      assert init + [nodes[m]] == nodes;
      ExchangeAdjacentOrder(Replay(order, init), nodes[m], a, b);
    }
  }

  /** A prefix of adjacent steps is adjacent steps. */
  lemma AdjacentStepsPrefix(order: seq<int>, nodes: seq<IntersectNode>, m: int)
    requires AdjacentSteps(order, nodes) && 0 <= m <= |nodes|
    ensures AdjacentSteps(order, nodes[..m])
  {
    var init := nodes[..m];
    forall k | 0 <= k < |init|
      ensures Playable(order, init[..k]) && Adjacent(Replay(order, init[..k]), init[k])
    {
      assert init[..k] == nodes[..k] && init[k] == nodes[k];
    }
  }

  /** The parity of a concatenation is that of its parts combined. */
  lemma {:induction false} OddCrossingsAppend(s: seq<IntersectNode>, t: seq<IntersectNode>, a: int, b: int)
    ensures OddCrossings(s + t, a, b) == (OddCrossings(s, a, b) != OddCrossings(t, a, b))
    decreases |t|
  {
    if t == [] {
      assert s + t == s;
    } else {
      var m := |t| - 1;
      OddCrossingsAppend(s, t[..m], a, b);
      assert (s + t)[..|s + t| - 1] == s + t[..m];
    }
  }

  /** Lists with the same nodes, in any order, cross every pair with the same parity. */
  lemma {:induction false} OddCrossingsPerm(s: seq<IntersectNode>, t: seq<IntersectNode>, a: int, b: int)
    requires multiset(s) == multiset(t)
    ensures OddCrossings(s, a, b) == OddCrossings(t, a, b)
    decreases |s|
  {
    if s == [] {
      assert |t| == |multiset(t)| == 0;
    } else {
      var m := |s| - 1;
      var x := s[m];
      assert s == s[..m] + [x];
      assert x in multiset(t);
      var k :| 0 <= k < |t| && t[k] == x;
      var rest := t[..k] + t[k + 1..];
      assert t == t[..k] + [x] + t[k + 1..];
      assert multiset(t) == multiset(t[..k]) + multiset{x} + multiset(t[k + 1..]);
      assert multiset(rest) == multiset(t[..k]) + multiset(t[k + 1..]);
      assert multiset(s) == multiset(s[..m]) + multiset{x};
      assert multiset(rest) == multiset(t) - multiset{x};
      assert multiset(s[..m]) == multiset(s) - multiset{x};
      OddCrossingsPerm(s[..m], rest, a, b);
      OddCrossingsAppend(t[..k] + [x], t[k + 1..], a, b);
      OddCrossingsAppend(t[..k], [x], a, b);
      OddCrossingsAppend(t[..k], t[k + 1..], a, b);
      assert [x][..0] == [];
    }
  }

  /** One step of the repair, unfolded. */
  lemma FixupFromUnfold(order: seq<int>, list: seq<IntersectNode>, i: int)
    requires 0 <= i < |list| && AllIn(list, order) && FirstAdjacent(order, list, i) < |list|
    ensures var j := FirstAdjacent(order, list, i);
      var l := list[i := list[j]][j := list[i]];
      multiset(l) == multiset(list) && AllIn(l, Exchange(order, l[i])) &&
      FixupFrom(order, list, i) == FixupFrom(Exchange(order, l[i]), l, i + 1)
  {
    SwapStep(order, list, i, FirstAdjacent(order, list, i));
  }

  /** The repair only rearranges the list. */
  lemma {:induction false} FixupFromPerm(order: seq<int>, list: seq<IntersectNode>, i: int)
    requires 0 <= i <= |list| && AllIn(list, order)
    ensures multiset(FixupFrom(order, list, i).0) == multiset(list)
    decreases |list| - i
  {
    if i < |list| && FirstAdjacent(order, list, i) < |list| {
      var j := FirstAdjacent(order, list, i);
      var l := list[i := list[j]][j := list[i]];
      FixupFromUnfold(order, list, i);
      FixupFromPerm(Exchange(order, l[i]), l, i + 1);
    }
  }

  /**
   * A repair that went through leaves a rearrangement of the list it was
   * given, each node joining two adjacent edges at its turn.
   */
  lemma FixedUpSteps(ael: seq<int>, before: seq<IntersectNode>, after: seq<IntersectNode>, sel: seq<int>)
    requires FixedUp(ael, before, after, true, sel)
    ensures multiset(after) == multiset(before) && Playable(ael, after) && AdjacentSteps(ael, after)
  {
    var sorted := SortNodes(before);
    var r := FixupOf(ael, before);
    assert after == r.0 && r.1 == |after|;
    assert AllIn(sorted, ael) && r == Fixup(ael, sorted);
    FixupAdjacent(ael, sorted);
    FixupFromPerm(ael, sorted, 0);
    assert after[..|after|] == after;
  }

  /** A run of inversions joins two adjacent edges at every turn. */
  lemma InversionsAdjacent(edges: seq<TEdge>, order: seq<int>, nodes: seq<IntersectNode>)
    requires Inversions(edges, order, nodes)
    ensures AdjacentSteps(order, nodes)
  {
  }

  /**
   * Processing a rearrangement of the bubble sort's nodes, each joining two
   * adjacent edges at its turn, leaves the list in the order the bubble sort
   * reached: ascending current X.
   */
  lemma RearrangedSorted(edges: seq<TEdge>, order: seq<int>, built: seq<IntersectNode>, nodes: seq<IntersectNode>)
    requires Distinct(order) && Inversions(edges, order, built)
    requires InArena(edges, Replay(order, built)) && SortedByX(edges, Replay(order, built))
    requires multiset(nodes) == multiset(built) && Playable(order, nodes) && AdjacentSteps(order, nodes)
    ensures InArena(edges, Replay(order, nodes)) && SortedByX(edges, Replay(order, nodes))
  {
    InversionsAdjacent(edges, order, built);
    var r1, r2 := Replay(order, built), Replay(order, nodes);
    ReplayDistinct(order, nodes);
    forall i | 0 <= i < |r2|
      ensures 0 <= r2[i] < |edges|
    {
      ReplayKeeps(order, nodes, r2[i]);
      ReplayKeeps(order, built, r2[i]);
      var p :| 0 <= p < |r1| && r1[p] == r2[i];
    }
    forall i, j | 0 <= i < j < |r2|
      ensures X(edges, r2[i]) <= X(edges, r2[j])
    {
      PairSorted(edges, order, built, nodes, i, j);
    }
  }

  /** One pair of positions of the processed list, as `RearrangedSorted` needs it. */
  lemma PairSorted(edges: seq<TEdge>, order: seq<int>, built: seq<IntersectNode>, nodes: seq<IntersectNode>, i: int, j: int)
    requires Distinct(order) && Playable(order, built) && AdjacentSteps(order, built)
    requires InArena(edges, Replay(order, built)) && SortedByX(edges, Replay(order, built))
    requires multiset(nodes) == multiset(built) && Playable(order, nodes) && AdjacentSteps(order, nodes)
    requires Distinct(Replay(order, nodes)) && 0 <= i < j < |Replay(order, nodes)|
    ensures 0 <= Replay(order, nodes)[i] < |edges| && 0 <= Replay(order, nodes)[j] < |edges|
    ensures X(edges, Replay(order, nodes)[i]) <= X(edges, Replay(order, nodes)[j])
  {
    var r1, r2 := Replay(order, built), Replay(order, nodes);
    var a, b := r2[i], r2[j];
    ReplayKeeps(order, nodes, a);
    ReplayKeeps(order, nodes, b);
    IndexOfUnique(r2, a, i);
    IndexOfUnique(r2, b, j);
    ReplayOrder(order, nodes, a, b);
    ReplayOrder(order, built, a, b);
    OddCrossingsPerm(nodes, built, a, b);
    assert Before(r1, a, b);
    assert r1[IndexOf(r1, a)] == a && r1[IndexOf(r1, b)] == b;
  }
}
