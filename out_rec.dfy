/**
 * Output fragments of the clipping engine: the `OutPt` ring nodes and the
 * `OutRec` records that own them (the record classes themselves, out-pt.ts
 * and out-rec.ts, are not part of this model; the fields the engine reads
 * and writes are).
 *
 * Like the edges, output points live in an arena `seq<OutPt>` and records in
 * the engine's `m_PolyOuts` array, a `seq<OutRec>`; references are indices
 * with `NULL` for null.  A record's points form a circular doubly-linked
 * ring; a ghost `ring` lists its nodes in `Next` order starting at `Pts`.
 */
module ClipperOutput {
  import opened ClipperEdge

  datatype OutPt = OutPt(Idx: int, Pt: IntPoint, Next: int, Prev: int)

  datatype OutRec = OutRec(Idx: int, IsOpen: bool, IsHole: bool, FirstLeft: int, Pts: int, BottomPt: int)

  /**
   * `OutRec.create(polyOuts, isOpen, pts)`: the record that takes the next
   * slot of `m_PolyOuts`, indexed by that slot, not a hole, with no
   * `FirstLeft` and no bottom point yet.
   */
  function NewOutRec(slot: int, isOpen: bool, pts: int): (rec: OutRec)
    ensures rec.Idx == slot && rec.Pts == pts && rec.IsOpen == isOpen && !rec.IsHole
  {
    OutRec(slot, isOpen, false, NULL, pts, NULL)
  }

  // ---------------------------------------------------------------------
  // Rings of output points
  // ---------------------------------------------------------------------

  /** `ring` lists a well-formed cycle of the arena: `Next` goes one step forward, `Prev` one back. */
  predicate PtRing(pts: seq<OutPt>, ring: seq<int>)
  {
    |ring| > 0 &&
    (forall i :: 0 <= i < |ring| ==> 0 <= ring[i] < |pts|) &&
    Distinct(ring) &&
    (forall i {:trigger pts[ring[i]]} :: 0 <= i < |ring| ==> pts[ring[i]].Next == ring[Succ(i, |ring|)]) &&
    (forall i {:trigger pts[ring[i]]} :: 0 <= i < |ring| ==> pts[ring[i]].Prev == ring[Pred(i, |ring|)])
  }

  /** The ring of a record: empty when it has no points, else a cycle starting at `Pts`. */
  predicate RecRing(pts: seq<OutPt>, rec: OutRec, ring: seq<int>)
  {
    if rec.Pts == NULL then ring == [] else PtRing(pts, ring) && ring[0] == rec.Pts
  }

  /**
   * Every record's ring is well formed, and `owner` names the record each
   * point belongs to, so that rings of different records are disjoint.
   */
  predicate RingsOk(pts: seq<OutPt>, recs: seq<OutRec>, rings: seq<seq<int>>, owner: seq<int>)
  {
    |rings| == |recs| && |owner| == |pts| &&
    (forall s :: 0 <= s < |recs| ==> RecRing(pts, recs[s], rings[s])) &&
    (forall s, i {:trigger rings[s][i]} :: 0 <= s < |recs| && 0 <= i < |rings[s]| ==> owner[rings[s][i]] == s)
  }

  /**
   * Records form a forest of redirects: `Idx` never points past the record's
   * own slot, and a record that still has points is its own root.
   */
  predicate RecsOk(recs: seq<OutRec>)
  {
    forall s :: 0 <= s < |recs| ==> 0 <= recs[s].Idx <= s && (recs[s].Pts != NULL ==> recs[s].Idx == s)
  }

  /** The links of `ring`'s nodes are the same in `r` as in `pts`. */
  predicate LinksKept(pts: seq<OutPt>, r: seq<OutPt>, ring: seq<int>)
  {
    |r| >= |pts| &&
    forall i {:trigger r[ring[i]]} :: 0 <= i < |ring| && 0 <= ring[i] < |pts| ==>
      r[ring[i]].Next == pts[ring[i]].Next && r[ring[i]].Prev == pts[ring[i]].Prev
  }

  /** A ring survives any change that leaves its own nodes' links alone. */
  lemma RingFrame(pts: seq<OutPt>, r: seq<OutPt>, ring: seq<int>)
    requires PtRing(pts, ring) && LinksKept(pts, r, ring)
    ensures PtRing(r, ring)
  {
    forall i | 0 <= i < |ring|
      ensures 0 <= ring[i] < |r|
      ensures r[ring[i]].Next == ring[Succ(i, |ring|)] && r[ring[i]].Prev == ring[Pred(i, |ring|)]
    {
      assert pts[ring[i]].Next == ring[Succ(i, |ring|)];
    }
  }

  /** Only the `Idx` field of the nodes in `ring` changes to `v`. */
  function Relabelled(pts: seq<OutPt>, ring: seq<int>, v: int): (r: seq<OutPt>)
    ensures |r| == |pts|
    ensures forall x :: 0 <= x < |pts| ==> r[x].Next == pts[x].Next && r[x].Prev == pts[x].Prev && r[x].Pt == pts[x].Pt
  {
    seq(|pts|, x requires 0 <= x < |pts| => if x in ring then pts[x].(Idx := v) else pts[x])
  }

  // ---------------------------------------------------------------------
  // Inserting a node
  // ---------------------------------------------------------------------

  /**
   * The links after node `n` is threaded between `before` and `after` (which
   * may be the same node): `n` points at both, they point back at `n`, and no
   * other link changes.
   */
  predicate PtLinkedIn(pts: seq<OutPt>, r: seq<OutPt>, n: int, before: int, after: int)
  {
    |r| == |pts| && 0 <= n < |r| && r[n].Next == after && r[n].Prev == before &&
    forall x {:trigger r[x]} :: 0 <= x < |pts| && x != n ==>
      r[x].Next == (if x == before then n else pts[x].Next) &&
      r[x].Prev == (if x == after then n else pts[x].Prev)
  }

  /** Where the insertion at position `i` goes: after `ring[i-1]` and before `ring[i]`, cyclically. */
  function BeforeSlot(ring: seq<int>, i: int): int
    requires 0 < |ring| && 0 <= i <= |ring|
  {
    if i == 0 then ring[|ring| - 1] else ring[i - 1]
  }

  function AfterSlot(ring: seq<int>, i: int): int
    requires 0 < |ring| && 0 <= i <= |ring|
  {
    if i == |ring| then ring[0] else ring[i]
  }

  lemma {:induction false} InsertedRingAt(pts: seq<OutPt>, r: seq<OutPt>, ring: seq<int>, n: int, i: int, j: int)
    requires PtRing(pts, ring) && n !in ring && 0 <= i <= |ring|
    requires PtLinkedIn(pts, r, n, BeforeSlot(ring, i), AfterSlot(ring, i))
    requires 0 <= j <= |ring|
    ensures var s := ring[..i] + [n] + ring[i..];
      r[s[j]].Next == s[Succ(j, |s|)] && r[s[j]].Prev == s[Pred(j, |s|)]
  {
    var s := ring[..i] + [n] + ring[i..];
    var m := |ring|;
    InsertAt(ring, n, i, j);
    InsertAt(ring, n, i, Succ(j, m + 1));
    InsertAt(ring, n, i, Pred(j, m + 1));
    if j != i {
      var oj := if j < i then j else j - 1;
      var x := ring[oj];
      assert x == s[j] && x != n;
      assert pts[ring[oj]].Next == ring[Succ(oj, m)] && pts[ring[oj]].Prev == ring[Pred(oj, m)];
      if oj != (if i == 0 then m - 1 else i - 1) {
        assert x != BeforeSlot(ring, i);
      }
      if oj != (if i == m then 0 else i) {
        assert x != AfterSlot(ring, i);
      }
    }
  }

  /** Threading a fresh node in at position `i` of a ring gives the ring with it there. */
  lemma {:induction false} InsertedRing(pts: seq<OutPt>, r: seq<OutPt>, ring: seq<int>, n: int, i: int)
    requires PtRing(pts, ring) && n !in ring && 0 <= i <= |ring|
    requires PtLinkedIn(pts, r, n, BeforeSlot(ring, i), AfterSlot(ring, i))
    ensures PtRing(r, ring[..i] + [n] + ring[i..])
  {
    var s := ring[..i] + [n] + ring[i..];
    forall a, b | 0 <= a < b < |s|
      ensures s[a] != s[b]
    {
      InsertAt(ring, n, i, a);
      InsertAt(ring, n, i, b);
    }
    forall j | 0 <= j < |s|
      ensures 0 <= s[j] < |r|
      ensures r[s[j]].Next == s[Succ(j, |s|)] && r[s[j]].Prev == s[Pred(j, |s|)]
    {
      InsertAt(ring, n, i, j);
      InsertedRingAt(pts, r, ring, n, i, j);
    }
  }

  // ---------------------------------------------------------------------
  // Reversing a ring (`OutPt.reverse`)
  // ---------------------------------------------------------------------

  /** The sequence backwards. */
  function Rev<T>(s: seq<T>): (r: seq<T>)
    ensures |r| == |s| && forall i :: 0 <= i < |s| ==> r[i] == s[|s| - 1 - i]
  {
    seq(|s|, i requires 0 <= i < |s| => s[|s| - 1 - i])
  }

  /** Every node of `ring` has its `Next` and `Prev` exchanged; nothing else changes. */
  predicate ReversedLinks(pts: seq<OutPt>, r: seq<OutPt>, ring: seq<int>)
  {
    |r| == |pts| &&
    forall x {:trigger r[x]} :: 0 <= x < |pts| ==>
      r[x] == if x in ring then pts[x].(Next := pts[x].Prev, Prev := pts[x].Next) else pts[x]
  }

  /**
   * `OutPt.reverse`, called on the first node of a ring: walks the ring once
   * and exchanges each node's `Next` and `Prev`.
   */
  method Reverse(pts: seq<OutPt>, start: int, ghost ring: seq<int>) returns (r: seq<OutPt>)
    requires PtRing(pts, ring) && ring[0] == start
    ensures ReversedLinks(pts, r, ring)
  {
    r := pts;
    var op := start;
    ghost var j := 0;
    while true
      invariant 0 <= j < |ring| && op == ring[j] && |r| == |pts|
      invariant forall x {:trigger r[x]} :: 0 <= x < |pts| ==>
        r[x] == if x in ring[..j] then pts[x].(Next := pts[x].Prev, Prev := pts[x].Next) else pts[x]
      decreases |ring| - j
    {
      assert op !in ring[..j];
      var next := r[op].Next;
      assert next == ring[Succ(j, |ring|)];
      r := r[op := r[op].(Next := r[op].Prev, Prev := next)];
      assert ring[..j + 1] == ring[..j] + [op];
      op := next;
      if op == start {
        assert Succ(j, |ring|) == 0;
        assert ring[..j + 1] == ring;
        break;
      }
      j := j + 1;
    }
  }

  lemma {:induction false} ReversedRingAt(pts: seq<OutPt>, r: seq<OutPt>, ring: seq<int>, i: int)
    requires PtRing(pts, ring) && ReversedLinks(pts, r, ring) && 0 <= i < |ring|
    ensures var s := Rev(ring);
      0 <= s[i] < |r| && r[s[i]].Next == s[Succ(i, |s|)] && r[s[i]].Prev == s[Pred(i, |s|)]
  {
    var m := |ring|;
    var oi := m - 1 - i;
    var x := ring[oi];
    assert x in ring;
    assert pts[ring[oi]].Next == ring[Succ(oi, m)] && pts[ring[oi]].Prev == ring[Pred(oi, m)];
    assert r[x].Next == pts[x].Prev && r[x].Prev == pts[x].Next;
  }

  /** Reversal turns the ring round: read forward, the nodes come in the opposite order. */
  lemma {:induction false} ReversedRing(pts: seq<OutPt>, r: seq<OutPt>, ring: seq<int>)
    requires PtRing(pts, ring) && ReversedLinks(pts, r, ring)
    ensures PtRing(r, Rev(ring))
  {
    var s := Rev(ring);
    forall a, b | 0 <= a < b < |s|
      ensures s[a] != s[b]
    {
      assert s[a] == ring[|ring| - 1 - a] && s[b] == ring[|ring| - 1 - b];
    }
    forall i | 0 <= i < |s|
      ensures 0 <= s[i] < |r| && r[s[i]].Next == s[Succ(i, |s|)] && r[s[i]].Prev == s[Pred(i, |s|)]
    {
      ReversedRingAt(pts, r, ring, i);
    }
  }

  // ---------------------------------------------------------------------
  // Splicing two rings (`AppendPolygon`)
  // ---------------------------------------------------------------------

  /** Two rings share no node. */
  predicate Disjoint(a: seq<int>, b: seq<int>)
  {
    forall i, j :: 0 <= i < |a| && 0 <= j < |b| ==> a[i] != b[j]
  }

  /**
   * The links after ring A (from `aFirst` to `aLast`) is closed up with ring
   * B: A's last node goes on to B's first and B's last back round to A's
   * first; no other link changes.
   */
  predicate SplicedLinks(pts: seq<OutPt>, r: seq<OutPt>, aFirst: int, aLast: int, bFirst: int, bLast: int)
  {
    |r| == |pts| &&
    forall x {:trigger r[x]} :: 0 <= x < |pts| ==>
      r[x].Next == (if x == aLast then bFirst else if x == bLast then aFirst else pts[x].Next) &&
      r[x].Prev == (if x == bFirst then aLast else if x == aFirst then bLast else pts[x].Prev)
  }

  lemma {:induction false} SplicedRingAt(pts: seq<OutPt>, r: seq<OutPt>, a: seq<int>, b: seq<int>, i: int)
    requires PtRing(pts, a) && PtRing(pts, b) && Disjoint(a, b)
    requires SplicedLinks(pts, r, a[0], a[|a| - 1], b[0], b[|b| - 1])
    requires 0 <= i < |a| + |b|
    ensures var s := a + b;
      r[s[i]].Next == s[Succ(i, |s|)] && r[s[i]].Prev == s[Pred(i, |s|)]
  {
    var s := a + b;
    var na, nb := |a|, |b|;
    if i < na {
      var x := a[i];
      assert pts[a[i]].Next == a[Succ(i, na)] && pts[a[i]].Prev == a[Pred(i, na)];
      assert x != b[0] && x != b[nb - 1];
      if i != na - 1 {
        assert x != a[na - 1];
      }
      if i != 0 {
        assert x != a[0];
      }
    } else {
      var k := i - na;
      var x := b[k];
      assert s[i] == x;
      assert pts[b[k]].Next == b[Succ(k, nb)] && pts[b[k]].Prev == b[Pred(k, nb)];
      assert x != a[0] && x != a[na - 1];
      if k != nb - 1 {
        assert x != b[nb - 1];
      }
      if k != 0 {
        assert x != b[0];
      }
    }
  }

  /** Closing two disjoint rings up into one gives their concatenation. */
  lemma {:induction false} SplicedRing(pts: seq<OutPt>, r: seq<OutPt>, a: seq<int>, b: seq<int>)
    requires PtRing(pts, a) && PtRing(pts, b) && Disjoint(a, b)
    requires SplicedLinks(pts, r, a[0], a[|a| - 1], b[0], b[|b| - 1])
    ensures PtRing(r, a + b)
  {
    var s := a + b;
    forall i, j | 0 <= i < j < |s|
      ensures s[i] != s[j]
    {
    }
    forall i | 0 <= i < |s|
      ensures 0 <= s[i] < |r|
      ensures r[s[i]].Next == s[Succ(i, |s|)] && r[s[i]].Prev == s[Pred(i, |s|)]
    {
      SplicedRingAt(pts, r, a, b, i);
    }
  }

  /** Closing two rings up changes the links of their four end nodes only. */
  lemma SplicedOutside(pts: seq<OutPt>, r: seq<OutPt>, a: seq<int>, b: seq<int>)
    requires |a| > 0 && |b| > 0 && SplicedLinks(pts, r, a[0], a[|a| - 1], b[0], b[|b| - 1])
    ensures forall x {:trigger r[x]} :: 0 <= x < |pts| && x !in a && x !in b ==>
      r[x].Next == pts[x].Next && r[x].Prev == pts[x].Prev
  {
  }

  // ---------------------------------------------------------------------
  // Redirects between records (`GetOutRec`)
  // ---------------------------------------------------------------------

  /** The record that slot `s` finally redirects to: its root. */
  function Representative(recs: seq<OutRec>, s: int): (root: int)
    requires RecsOk(recs) && 0 <= s < |recs|
    ensures 0 <= root <= s && recs[root].Idx == root
    decreases s
  {
    if recs[s].Idx == s then s else Representative(recs, recs[s].Idx)
  }

  /**
   * Redirecting the root `s2` to a smaller root `t` (what `AppendPolygon`
   * does to the absorbed record) keeps the redirects a forest and moves every
   * slot that reached `s2` over to `t`; no other slot's root changes.
   */
  lemma {:induction false} RedirectRoot(recs: seq<OutRec>, s2: int, t: int, x: int)
    requires RecsOk(recs) && 0 <= t < s2 < |recs| && recs[s2].Idx == s2 && recs[t].Idx == t
    requires 0 <= x < |recs|
    ensures var r := recs[s2 := recs[s2].(Idx := t, Pts := NULL)];
      RecsOk(r) &&
      Representative(r, x) == if Representative(recs, x) == s2 then t else Representative(recs, x)
    decreases x
  {
    var r := recs[s2 := recs[s2].(Idx := t, Pts := NULL)];
    assert RecsOk(r);
    if recs[x].Idx != x {
      RedirectRoot(recs, s2, t, recs[x].Idx);
    }
  }

  // ---------------------------------------------------------------------
  // The engine's output state
  // ---------------------------------------------------------------------

  /** Every record's ring is well formed and the records form a forest of redirects. */
  predicate OutputOk(pts: seq<OutPt>, recs: seq<OutRec>, rings: seq<seq<int>>, owner: seq<int>)
  {
    RingsOk(pts, recs, rings, owner) && RecsOk(recs)
  }

  /** The points of a ring in ring order: the polygon the fragment traces. */
  function Path(pts: seq<OutPt>, ring: seq<int>): (path: seq<IntPoint>)
    requires forall i :: 0 <= i < |ring| ==> 0 <= ring[i] < |pts|
    ensures |path| == |ring|
  {
    seq(|ring|, i requires 0 <= i < |ring| => pts[ring[i]].Pt)
  }

  /** No node owned by a record outside `s` has its links changed. */
  predicate KeptOutside(pts: seq<OutPt>, r: seq<OutPt>, owner: seq<int>, s: set<int>)
  {
    |r| >= |pts| && |owner| == |pts| &&
    forall x {:trigger r[x]} :: 0 <= x < |pts| && owner[x] !in s ==> r[x].Next == pts[x].Next && r[x].Prev == pts[x].Prev
  }

  /**
   * The records outside `s` keep their rings and their ownership through a
   * change that leaves their nodes' links, their records and their rings
   * alone and that reassigns owners only inside `s`.
   */
  lemma {:induction false} OutsideRingsKept(pts: seq<OutPt>, r: seq<OutPt>, recs: seq<OutRec>, recs2: seq<OutRec>,
      rings: seq<seq<int>>, rings2: seq<seq<int>>, owner: seq<int>, owner2: seq<int>, s: set<int>, t: int)
    requires RingsOk(pts, recs, rings, owner) && KeptOutside(pts, r, owner, s)
    requires |recs2| == |recs| && |rings2| == |rings| && |owner2| == |r|
    requires 0 <= t < |recs| && t !in s && recs2[t] == recs[t] && rings2[t] == rings[t]
    requires forall x :: 0 <= x < |pts| && owner[x] !in s ==> owner2[x] == owner[x]
    ensures RecRing(r, recs2[t], rings2[t])
    ensures forall i :: 0 <= i < |rings2[t]| ==> owner2[rings2[t][i]] == t
  {
    var ring := rings[t];
    if recs[t].Pts != NULL {
      forall i | 0 <= i < |ring| && 0 <= ring[i] < |pts|
        ensures r[ring[i]].Next == pts[ring[i]].Next && r[ring[i]].Prev == pts[ring[i]].Prev
      {
        assert owner[ring[i]] == t;
      }
      RingFrame(pts, r, ring);
    }
    forall i | 0 <= i < |ring|
      ensures owner2[ring[i]] == t
    {
      assert owner[ring[i]] == t;
    }
  }

  /** A ring of an arena extended by node `n` and threaded with it at position `i` gains `n` there. */
  lemma {:induction false} ThreadedRing(pts: seq<OutPt>, r: seq<OutPt>, ring: seq<int>, n: int, i: int)
    requires PtRing(pts, ring) && n == |pts| && |r| == |pts| + 1 && 0 <= i <= |ring|
    requires PtLinkedIn(pts + [r[n]], r, n, BeforeSlot(ring, i), AfterSlot(ring, i))
    ensures PtRing(r, ring[..i] + [n] + ring[i..])
  {
    var pts0 := pts + [r[n]];
    RingFrame(pts, pts0, ring);
    assert n !in ring;
    InsertedRing(pts0, r, ring, n, i);
  }

  /** The records' rings and owners, taken apart: what `RingsOk` needs besides the sizes. */
  predicate RingOwned(pts: seq<OutPt>, recs: seq<OutRec>, rings: seq<seq<int>>, owner: seq<int>, t: int)
    requires 0 <= t < |recs| && |rings| == |recs|
  {
    RecRing(pts, recs[t], rings[t]) &&
    forall i :: 0 <= i < |rings[t]| ==> 0 <= rings[t][i] < |owner| && owner[rings[t][i]] == t
  }

  lemma RingsOkByParts(pts: seq<OutPt>, recs: seq<OutRec>, rings: seq<seq<int>>, owner: seq<int>)
    requires |rings| == |recs| && |owner| == |pts|
    requires forall t :: 0 <= t < |recs| ==> RingOwned(pts, recs, rings, owner, t)
    ensures RingsOk(pts, recs, rings, owner)
  {
    forall t | 0 <= t < |recs|
      ensures RecRing(pts, recs[t], rings[t])
    {
      assert RingOwned(pts, recs, rings, owner, t);
    }
    forall t, i | 0 <= t < |recs| && 0 <= i < |rings[t]|
      ensures 0 <= rings[t][i] < |owner| && owner[rings[t][i]] == t
    {
      assert RingOwned(pts, recs, rings, owner, t);
    }
  }

  /**
   * Threading node `n` (appended to the arena) into record `s`'s ring at
   * position `i` keeps the output well formed: the ring gains `n` there, the
   * record's `Pts` follows the ring's new first node, and `n` belongs to `s`.
   */
  lemma {:induction false} ThreadedOutputOk(pts: seq<OutPt>, r: seq<OutPt>, recs: seq<OutRec>, rings: seq<seq<int>>,
      owner: seq<int>, s: int, i: int, n: int)
    requires OutputOk(pts, recs, rings, owner) && 0 <= s < |recs| && recs[s].Pts != NULL && 0 <= i <= |rings[s]|
    requires n == |pts| && |r| == |pts| + 1
    requires PtLinkedIn(pts + [r[n]], r, n, BeforeSlot(rings[s], i), AfterSlot(rings[s], i))
    ensures var ring := rings[s][..i] + [n] + rings[s][i..];
      OutputOk(r, recs[s := recs[s].(Pts := ring[0])], rings[s := ring], owner + [s])
  {
    var ring := rings[s];
    var ring2 := ring[..i] + [n] + ring[i..];
    var recs2 := recs[s := recs[s].(Pts := ring2[0])];
    var rings2 := rings[s := ring2];
    var owner2 := owner + [s];
    assert PtRing(pts, ring);
    ThreadedRing(pts, r, ring, n, i);
    var before, after := BeforeSlot(ring, i), AfterSlot(ring, i);
    assert owner[before] == s && owner[after] == s;
    assert KeptOutside(pts, r, owner, {s}) by {
      forall x | 0 <= x < |pts| && owner[x] !in {s}
        ensures r[x].Next == pts[x].Next && r[x].Prev == pts[x].Prev
      {
        assert x != before && x != after && r[x].Next == (pts + [r[n]])[x].Next;
      }
    }
    forall t | 0 <= t < |recs|
      ensures RingOwned(r, recs2, rings2, owner2, t)
    {
      if t == s {
        forall j | 0 <= j < |ring2|
          ensures owner2[ring2[j]] == s
        {
          InsertAt(ring, n, i, j);
        }
      } else {
        OutsideRingsKept(pts, r, recs, recs2, rings, rings2, owner, owner2, {s}, t);
      }
    }
    RingsOkByParts(r, recs2, rings2, owner2);
  }

  /**
   * The writes that thread a fresh node carrying `pt` and `idx` into record
   * `s`'s ring at position `i`: the node is appended to the arena and linked
   * between `BeforeSlot` and `AfterSlot`, which are linked back to it.  The
   * ring gains the node at position `i` (so, by `ThreadedPath`, the
   * fragment's path gains `pt` there).
   */
  method ThreadNewPt(pts: seq<OutPt>, ghost recs: seq<OutRec>, ghost rings: seq<seq<int>>, ghost owner: seq<int>,
      ghost s: int, ghost i: int, before: int, after: int, pt: IntPoint, idx: int)
    returns (r: seq<OutPt>, n: int)
    requires OutputOk(pts, recs, rings, owner) && 0 <= s < |recs| && recs[s].Pts != NULL && 0 <= i <= |rings[s]|
    requires before == BeforeSlot(rings[s], i) && after == AfterSlot(rings[s], i)
    ensures n == |pts| && |r| == n + 1 && r[n].Pt == pt && r[n].Idx == idx
    ensures forall x :: 0 <= x < |pts| ==> r[x].Pt == pts[x].Pt && r[x].Idx == pts[x].Idx
    ensures var ring := rings[s][..i] + [n] + rings[s][i..];
      OutputOk(r, recs[s := recs[s].(Pts := ring[0])], rings[s := ring], owner + [s])
  {
    assert PtRing(pts, rings[s]);
    r, n := LinkNewPt(pts, before, after, pt, idx);
    ThreadedOutputOk(pts, r, recs, rings, owner, s, i, n);
  }

  /**
   * The link writes of a fresh node: it points at `after` and back at
   * `before`, `before` points forward at it and `after` back at it.
   */
  method LinkNewPt(pts: seq<OutPt>, before: int, after: int, pt: IntPoint, idx: int) returns (r: seq<OutPt>, n: int)
    requires 0 <= before < |pts| && 0 <= after < |pts|
    ensures n == |pts| && |r| == n + 1 && r[n].Pt == pt && r[n].Idx == idx
    ensures forall x :: 0 <= x < |pts| ==> r[x].Pt == pts[x].Pt && r[x].Idx == pts[x].Idx
    ensures PtLinkedIn(pts + [r[n]], r, n, before, after)
  {
    n := |pts|;
    r := pts + [OutPt(idx, pt, after, before)];
    r := r[before := r[before].(Next := n)];
    r := r[after := r[after].(Prev := n)];
  }

  /** The path of a ring with a node carrying `pt` threaded in at position `i` has `pt` there. */
  lemma {:induction false} ThreadedPath(pts: seq<OutPt>, r: seq<OutPt>, ring: seq<int>, n: int, i: int, pt: IntPoint)
    requires (forall j :: 0 <= j < |ring| ==> 0 <= ring[j] < |pts|) && n == |pts| && |r| == n + 1 && r[n].Pt == pt
    requires 0 <= i <= |ring| && forall x :: 0 <= x < |pts| ==> r[x].Pt == pts[x].Pt
    ensures var ring2 := ring[..i] + [n] + ring[i..];
      (forall j :: 0 <= j < |ring2| ==> 0 <= ring2[j] < |r|) &&
      Path(r, ring2) == Path(pts, ring)[..i] + [pt] + Path(pts, ring)[i..]
  {
    var ring2 := ring[..i] + [n] + ring[i..];
    var path := Path(pts, ring);
    forall j | 0 <= j < |ring2|
      ensures 0 <= ring2[j] < |r| && Path(r, ring2)[j] == (path[..i] + [pt] + path[i..])[j]
    {
      InsertAt(ring, n, i, j);
    }
  }

  /** Two record lists that agree on every record's `Idx` and `Pts` (other fields may differ). */
  predicate SameShape(recs: seq<OutRec>, recs2: seq<OutRec>)
  {
    |recs2| == |recs| && forall t :: 0 <= t < |recs| ==> recs2[t].Idx == recs[t].Idx && recs2[t].Pts == recs[t].Pts
  }

  /** The output stays well formed when records change only in fields other than `Idx` and `Pts`. */
  lemma ShapeKept(pts: seq<OutPt>, recs: seq<OutRec>, recs2: seq<OutRec>, rings: seq<seq<int>>, owner: seq<int>)
    requires OutputOk(pts, recs, rings, owner) && SameShape(recs, recs2)
    ensures OutputOk(pts, recs2, rings, owner)
  {
    forall t | 0 <= t < |recs|
      ensures RecRing(pts, recs2[t], rings[t])
    {
      assert RecRing(pts, recs[t], rings[t]);
    }
  }

  /**
   * `AddOutPt` for an edge with no fragment yet: a new node carrying `pt`,
   * linked to itself and indexed by the new record, and a new record in the
   * next slot of `m_PolyOuts` (`OutRec.create`) whose ring is that node alone.
   */
  method NewRing(pts: seq<OutPt>, recs: seq<OutRec>, ghost rings: seq<seq<int>>, ghost owner: seq<int>, pt: IntPoint, isOpen: bool)
    returns (r: seq<OutPt>, recs2: seq<OutRec>, n: int)
    requires OutputOk(pts, recs, rings, owner)
    ensures n == |pts| && r == pts + [OutPt(|recs|, pt, n, n)]
    ensures recs2 == recs + [NewOutRec(|recs|, isOpen, n)]
    ensures OutputOk(r, recs2, rings + [[n]], owner + [|recs|]) && Path(r, [n]) == [pt]
  {
    n := |pts|;
    var slot := |recs|;
    recs2 := recs + [NewOutRec(slot, isOpen, NULL)];
    recs2 := recs2[slot := recs2[slot].(Pts := n)];
    r := pts + [OutPt(slot, pt, n, n)];
    ghost var rings2, owner2 := rings + [[n]], owner + [slot];
    assert PtRing(r, [n]);
    assert KeptOutside(pts, r, owner, {slot});
    forall t | 0 <= t < |recs2|
      ensures RingOwned(r, recs2, rings2, owner2, t)
    {
      if t < slot {
        OutsideRingsKept(pts, r, recs, recs2[..slot], rings, rings2[..slot], owner, owner2, {slot}, t);
      }
    }
    RingsOkByParts(r, recs2, rings2, owner2);
  }

  /** The end of a ring `AddOutPt` extends: its first node for a left-side edge, else its last. */
  function RingEnd(ring: seq<int>, toFront: bool): int
    requires ring != []
  {
    if toFront then ring[0] else ring[|ring| - 1]
  }

  /**
   * `AddOutPt` for an edge whose fragment is record `s`: when `pt` equals the
   * point at the end being extended (the front for a left-side edge, the
   * back otherwise) that end's node is returned and nothing changes;
   * otherwise `ExtendRing` adds it.
   */
  method AddToRing(pts: seq<OutPt>, recs: seq<OutRec>, ghost rings: seq<seq<int>>, ghost owner: seq<int>, s: int, pt: IntPoint, toFront: bool)
    returns (r: seq<OutPt>, recs2: seq<OutRec>, n: int, ghost rings2: seq<seq<int>>, ghost owner2: seq<int>)
    requires OutputOk(pts, recs, rings, owner) && 0 <= s < |recs| && recs[s].Pts != NULL
    ensures rings[s] != [] && 0 <= RingEnd(rings[s], toFront) < |pts| && OutputOk(r, recs2, rings2, owner2)
    ensures pts[RingEnd(rings[s], toFront)].Pt == pt ==>
      r == pts && recs2 == recs && rings2 == rings && owner2 == owner && n == RingEnd(rings[s], toFront)
    ensures pts[RingEnd(rings[s], toFront)].Pt != pt ==>
      Extended(pts, recs, rings, owner, s, pt, toFront, r, recs2, n, rings2, owner2)
  {
    assert PtRing(pts, rings[s]);
    var op := recs[s].Pts;
    var last := pts[op].Prev;
    assert last == rings[s][|rings[s]| - 1];
    if toFront && pt == pts[op].Pt {
      return pts, recs, op, rings, owner;
    } else if !toFront && pt == pts[last].Pt {
      return pts, recs, last, rings, owner;
    }
    r, recs2, n, rings2, owner2 := ExtendRing(pts, recs, rings, owner, s, pt, toFront, op, last);
  }

  /**
   * What `AddOutPt` does to record `s` when it adds a node: the new node `n`
   * (the next slot of the arena, indexed by the record) joins the ring at
   * the front, becoming `Pts`, for a left-side edge and at the back
   * otherwise, so the fragment's path gains `pt` at that end; it belongs to
   * `s`, and no old node's point or index changes.
   */
  ghost predicate Extended(pts: seq<OutPt>, recs: seq<OutRec>, rings: seq<seq<int>>, owner: seq<int>, s: int, pt: IntPoint, toFront: bool,
    r: seq<OutPt>, recs2: seq<OutRec>, n: int, rings2: seq<seq<int>>, owner2: seq<int>)
    requires OutputOk(pts, recs, rings, owner) && 0 <= s < |recs|
  {
    n == |pts| && |r| == n + 1 && r[n].Idx == recs[s].Idx && owner2 == owner + [s] &&
    rings2 == rings[s := if toFront then [n] + rings[s] else rings[s] + [n]] &&
    recs2 == recs[s := recs[s].(Pts := rings2[s][0])] &&
    r[n].Pt == pt &&
    forall x :: 0 <= x < |pts| ==> r[x].Pt == pts[x].Pt && r[x].Idx == pts[x].Idx
  }

  /** After an `Extended` insertion the fragment's path gains `pt` at the front, or at the back. */
  lemma ExtendedPath(pts: seq<OutPt>, recs: seq<OutRec>, rings: seq<seq<int>>, owner: seq<int>, s: int, pt: IntPoint, toFront: bool,
    r: seq<OutPt>, recs2: seq<OutRec>, n: int, rings2: seq<seq<int>>, owner2: seq<int>)
    requires OutputOk(pts, recs, rings, owner) && 0 <= s < |recs| && recs[s].Pts != NULL
    requires Extended(pts, recs, rings, owner, s, pt, toFront, r, recs2, n, rings2, owner2)
    ensures (forall i :: 0 <= i < |rings[s]| ==> 0 <= rings[s][i] < |pts|) &&
      (forall i :: 0 <= i < |rings2[s]| ==> 0 <= rings2[s][i] < |r|) &&
      Path(r, rings2[s]) == (if toFront then [pt] + Path(pts, rings[s]) else Path(pts, rings[s]) + [pt])
  {
    assert RecRing(pts, recs[s], rings[s]);
    ThreadedPath(pts, r, rings[s], n, if toFront then 0 else |rings[s]|, pt);
    InsertAtEnds(rings[s], n);
    InsertAtEnds(Path(pts, rings[s]), pt);
  }

  /** The insertion `AddToRing` makes once the end point differs from `pt`. */
  method ExtendRing(pts: seq<OutPt>, recs: seq<OutRec>, ghost rings: seq<seq<int>>, ghost owner: seq<int>, s: int, pt: IntPoint, toFront: bool,
      op: int, last: int)
    returns (r: seq<OutPt>, recs2: seq<OutRec>, n: int, ghost rings2: seq<seq<int>>, ghost owner2: seq<int>)
    requires OutputOk(pts, recs, rings, owner) && 0 <= s < |recs| && recs[s].Pts != NULL
    requires rings[s] != [] && op == rings[s][0] && last == rings[s][|rings[s]| - 1]
    ensures OutputOk(r, recs2, rings2, owner2)
    ensures Extended(pts, recs, rings, owner, s, pt, toFront, r, recs2, n, rings2, owner2)
  {
    ghost var ring := rings[s];
    ghost var i := if toFront then 0 else |ring|;
    r, n := ThreadNewPt(pts, recs, rings, owner, s, i, last, op, pt, recs[s].Idx);
    InsertAtEnds(ring, n);
    rings2 := rings[s := if toFront then [n] + ring else ring + [n]];
    owner2 := owner + [s];
    recs2 := recs;
    if toFront {
      recs2 := recs[s := recs[s].(Pts := n)];
    }
    assert recs2 == recs[s := recs[s].(Pts := rings2[s][0])];
  }

  /** Inserting at position 0 prepends; inserting at the end appends. */
  lemma InsertAtEnds<T>(p: seq<T>, x: T)
    ensures p[..0] + [x] + p[0..] == [x] + p && p[..|p|] + [x] + p[|p|..] == p + [x]
  {
  }

  // ---------------------------------------------------------------------
  // Relabelling a ring (`UpdateOutPtIdxs`)
  // ---------------------------------------------------------------------

  /** The output stays well formed under any change that keeps every node's links. */
  lemma {:induction false} LinksSameKept(pts: seq<OutPt>, r: seq<OutPt>, recs: seq<OutRec>, rings: seq<seq<int>>, owner: seq<int>)
    requires OutputOk(pts, recs, rings, owner) && |r| == |pts|
    requires forall x :: 0 <= x < |pts| ==> r[x].Next == pts[x].Next && r[x].Prev == pts[x].Prev
    ensures OutputOk(r, recs, rings, owner)
  {
    assert KeptOutside(pts, r, owner, {});
    forall t | 0 <= t < |recs|
      ensures RingOwned(r, recs, rings, owner, t)
    {
      OutsideRingsKept(pts, r, recs, recs, rings, rings, owner, owner, {}, t);
    }
    RingsOkByParts(r, recs, rings, owner);
  }

  /**
   * `UpdateOutPtIdxs`' walk: from the ring's first node backwards along
   * `Prev` until it is back at the start, set every node's `Idx` to `v`.
   */
  method Relabel(pts: seq<OutPt>, start: int, ghost ring: seq<int>, v: int) returns (r: seq<OutPt>)
    requires PtRing(pts, ring) && ring[0] == start
    ensures r == Relabelled(pts, ring, v)
  {
    r := pts[start := pts[start].(Idx := v)];
    var op := r[start].Prev;
    ghost var j := |ring| - 1;
    assert op == ring[j];
    while op != start
      invariant 0 <= j < |ring| && op == ring[j] && |r| == |pts|
      invariant forall i {:trigger r[ring[i]]} :: 0 <= i < |ring| ==>
        r[ring[i]] == if i == 0 || j < i then pts[ring[i]].(Idx := v) else pts[ring[i]]
      invariant forall x {:trigger r[x]} :: 0 <= x < |pts| && x !in ring ==> r[x] == pts[x]
      decreases j
    {
      assert j != 0;
      assert pts[ring[j]].Prev == ring[j - 1];
      r := r[op := r[op].(Idx := v)];
      op := r[op].Prev;
      j := j - 1;
    }
    assert j == 0;
    forall x | 0 <= x < |pts|
      ensures r[x] == Relabelled(pts, ring, v)[x]
    {
      if x in ring {
        var i :| 0 <= i < |ring| && ring[i] == x;
      }
    }
  }

  // ---------------------------------------------------------------------
  // Joining two fragments (`AppendPolygon`)
  // ---------------------------------------------------------------------

  /**
   * The four link writes that close ring A (first `aFirst`, last `aLast`)
   * up with ring B: A's last goes on to B's first, B's first back to A's
   * last, B's last on to A's first and A's first back to B's last.  (The
   * source writes them in a different order in each case; they touch
   * different fields, so the order does not matter.)
   */
  method SpliceLinks(pts: seq<OutPt>, aFirst: int, aLast: int, bFirst: int, bLast: int) returns (r: seq<OutPt>)
    requires 0 <= aFirst < |pts| && 0 <= aLast < |pts| && 0 <= bFirst < |pts| && 0 <= bLast < |pts|
    requires aLast != bLast && aFirst != bFirst
    ensures SplicedLinks(pts, r, aFirst, aLast, bFirst, bLast)
    ensures forall x :: 0 <= x < |pts| ==> r[x].Pt == pts[x].Pt && r[x].Idx == pts[x].Idx
  {
    r := pts[aLast := pts[aLast].(Next := bFirst)];
    r := r[bFirst := r[bFirst].(Prev := aLast)];
    r := r[bLast := r[bLast].(Next := aFirst)];
    r := r[aFirst := r[aFirst].(Prev := bLast)];
  }

  /**
   * The ring `AppendPolygon` makes of the kept fragment's ring `a` and the
   * absorbed fragment's ring `b`, by the sides of the two edges: with the
   * first edge on the left, `b` goes in front of `a` (reversed when the
   * second edge is on the left too); with it on the right, `b` goes behind
   * `a` (reversed when the second edge is on the right too).
   */
  function Joined<T>(a: seq<T>, b: seq<T>, left1: bool, left2: bool): (j: seq<T>)
    ensures |j| == |a| + |b|
  {
    if left1 then (if left2 then Rev(b) else b) + a
    else a + (if left2 then b else Rev(b))
  }

  /** Rings of different records share no node. */
  lemma {:induction false} RingsDisjoint(pts: seq<OutPt>, recs: seq<OutRec>, rings: seq<seq<int>>, owner: seq<int>, s1: int, s2: int)
    requires RingsOk(pts, recs, rings, owner) && 0 <= s1 < |recs| && 0 <= s2 < |recs| && s1 != s2
    ensures Disjoint(rings[s1], rings[s2])
  {
    forall i, j | 0 <= i < |rings[s1]| && 0 <= j < |rings[s2]|
      ensures rings[s1][i] != rings[s2][j]
    {
      assert owner[rings[s1][i]] == s1 && owner[rings[s2][j]] == s2;
    }
  }

  /** The path of a ring read backwards is the ring's path backwards. */
  lemma RevPath(pts: seq<OutPt>, ring: seq<int>)
    requires forall i :: 0 <= i < |ring| ==> 0 <= ring[i] < |pts|
    ensures (forall i :: 0 <= i < |ring| ==> 0 <= Rev(ring)[i] < |pts|) && Path(pts, Rev(ring)) == Rev(Path(pts, ring))
  {
  }

  /** The path of two rings one after the other is the first path followed by the second. */
  lemma ConcatPath(pts: seq<OutPt>, a: seq<int>, b: seq<int>)
    requires (forall i :: 0 <= i < |a| ==> 0 <= a[i] < |pts|) && (forall i :: 0 <= i < |b| ==> 0 <= b[i] < |pts|)
    ensures (forall i :: 0 <= i < |a + b| ==> 0 <= (a + b)[i] < |pts|) && Path(pts, a + b) == Path(pts, a) + Path(pts, b)
  {
  }

  /** Points and indexes unchanged: only links may differ. */
  predicate SameLabels(pts: seq<OutPt>, r: seq<OutPt>)
  {
    |r| == |pts| && forall x :: 0 <= x < |pts| ==> r[x].Pt == pts[x].Pt && r[x].Idx == pts[x].Idx
  }

  /** Only links changed, so every ring reads the same path. */
  lemma SameLabelsPath(pts: seq<OutPt>, r: seq<OutPt>, ring: seq<int>)
    requires SameLabels(pts, r) && forall i :: 0 <= i < |ring| ==> 0 <= ring[i] < |pts|
    ensures Path(r, ring) == Path(pts, ring)
  {
  }

  /**
   * The link writes of `AppendPolygon` on two disjoint rings `ring1` (the
   * kept fragment, from `Pts` = `p1_lft` round to `p1_rt`) and `ring2` (the
   * absorbed one): `ring2` is reversed in place (`OutPt.reverse`) when both
   * edges are on the same side, and the two rings are closed up into the
   * one `Joined` ring.  Nodes of neither ring keep their links.
   */
  method JoinRings(pts: seq<OutPt>, p1Lft: int, p2Lft: int, ghost ring1: seq<int>, ghost ring2: seq<int>, left1: bool, left2: bool)
    returns (r: seq<OutPt>)
    requires PtRing(pts, ring1) && PtRing(pts, ring2) && Disjoint(ring1, ring2) && ring1[0] == p1Lft && ring2[0] == p2Lft
    ensures SameLabels(pts, r) && PtRing(r, Joined(ring1, ring2, left1, left2))
    ensures Joined(ring1, ring2, left1, left2)[0] == if left1 then (if left2 then pts[p2Lft].Prev else p2Lft) else p1Lft
    ensures forall x {:trigger r[x]} :: 0 <= x < |pts| && x !in ring1 && x !in ring2 ==>
      r[x].Next == pts[x].Next && r[x].Prev == pts[x].Prev
  {
    var p1Rt := pts[p1Lft].Prev;
    var p2Rt := pts[p2Lft].Prev;
    assert p1Rt == ring1[|ring1| - 1] && p2Rt == ring2[|ring2| - 1];
    var r1, b := Reorient(pts, p2Lft, ring1, ring2, left1 == left2);
    var bFirst, bLast := if left1 == left2 then p2Rt else p2Lft, if left1 == left2 then p2Lft else p2Rt;
    assert bFirst == b[0] && bLast == b[|b| - 1];
    if left1 {
      r := SpliceLinks(r1, bFirst, bLast, p1Lft, p1Rt);
      SplicedRing(r1, r, b, ring1);
      SplicedOutside(r1, r, b, ring1);
    } else {
      r := SpliceLinks(r1, p1Lft, p1Rt, bFirst, bLast);
      SplicedRing(r1, r, ring1, b);
      SplicedOutside(r1, r, ring1, b);
    }
    forall x | 0 <= x < |pts| && x !in ring1 && x !in ring2
      ensures r[x].Next == pts[x].Next && r[x].Prev == pts[x].Prev
    {
      assert x !in b && r1[x] == pts[x];
    }
  }

  /**
   * The first half of `JoinRings`: `ring2` reversed in place when `rev`
   * holds, left alone otherwise; every other node keeps its links.
   */
  method Reorient(pts: seq<OutPt>, p2Lft: int, ghost ring1: seq<int>, ghost ring2: seq<int>, rev: bool)
    returns (r: seq<OutPt>, ghost b: seq<int>)
    requires PtRing(pts, ring1) && PtRing(pts, ring2) && Disjoint(ring1, ring2) && ring2[0] == p2Lft
    ensures SameLabels(pts, r) && b == (if rev then Rev(ring2) else ring2) && forall x :: x in b <==> x in ring2
    ensures PtRing(r, ring1) && PtRing(r, b) && Disjoint(b, ring1) && Disjoint(ring1, b)
    ensures forall x {:trigger r[x]} :: 0 <= x < |pts| && x !in ring2 ==> r[x] == pts[x]
  {
    r := pts;
    b := ring2;
    if rev {
      r := Reverse(pts, p2Lft, ring2);
      ReversedRing(pts, r, ring2);
      b := Rev(ring2);
      RevMembers(ring2);
      assert LinksKept(pts, r, ring1) by {
        forall i | 0 <= i < |ring1| && 0 <= ring1[i] < |pts|
          ensures r[ring1[i]].Next == pts[ring1[i]].Next && r[ring1[i]].Prev == pts[ring1[i]].Prev
        {
          assert ring1[i] !in ring2;
        }
      }
      RingFrame(pts, r, ring1);
    }
  }

  /** `owner` with every node of record `from` handed to record `to`. */
  function Reowned(owner: seq<int>, from: int, to: int): (o: seq<int>)
    ensures |o| == |owner|
  {
    seq(|owner|, x requires 0 <= x < |owner| => if owner[x] == from then to else owner[x])
  }

  /**
   * The records after `AppendPolygon` absorbed record `s2` into `s1`: the
   * kept record starts its ring at `pts1` and forgets its bottom point, and
   * takes the absorbed record's hole state (and `FirstLeft`, unless that is
   * the kept record itself) when the hole-state choice fell on it; the
   * absorbed record loses its points and bottom point, and its `FirstLeft`
   * and `Idx` now name the kept record.
   */
  function AppendedRecs(recs: seq<OutRec>, s1: int, s2: int, pts1: int, holeFromSecond: bool): (recs2: seq<OutRec>)
    requires 0 <= s1 < |recs| && 0 <= s2 < |recs| && s1 != s2
    ensures |recs2| == |recs|
  {
    var rec1, rec2 := recs[s1], recs[s2];
    var kept := rec1.(Pts := pts1, BottomPt := NULL);
    var kept2 :=
      if holeFromSecond then kept.(FirstLeft := if rec2.FirstLeft != s1 then rec2.FirstLeft else kept.FirstLeft, IsHole := rec2.IsHole)
      else kept;
    recs[s1 := kept2][s2 := rec2.(Pts := NULL, BottomPt := NULL, FirstLeft := s1, Idx := rec1.Idx)]
  }

  /**
   * The output after record `s2`'s ring was joined onto record `s1`'s:
   * still well formed, with the joined ring under `s1`, none under `s2`,
   * and `s2`'s nodes owned by `s1`.
   */
  lemma {:induction false} JoinedOutputOk(pts: seq<OutPt>, r: seq<OutPt>, recs: seq<OutRec>, rings: seq<seq<int>>, owner: seq<int>,
      s1: int, s2: int, joined: seq<int>, holeFromSecond: bool)
    requires OutputOk(pts, recs, rings, owner) && 0 <= s1 < s2 < |recs| && recs[s1].Pts != NULL && recs[s2].Pts != NULL
    requires |r| == |pts| && PtRing(r, joined) && forall x :: x in joined <==> x in rings[s1] || x in rings[s2]
    requires forall x {:trigger r[x]} :: 0 <= x < |pts| && x !in rings[s1] && x !in rings[s2] ==>
      r[x].Next == pts[x].Next && r[x].Prev == pts[x].Prev
    ensures OutputOk(r, AppendedRecs(recs, s1, s2, joined[0], holeFromSecond), rings[s1 := joined][s2 := []], Reowned(owner, s2, s1))
  {
    var recs2 := AppendedRecs(recs, s1, s2, joined[0], holeFromSecond);
    var rings2 := rings[s1 := joined][s2 := []];
    var owner2 := Reowned(owner, s2, s1);
    assert KeptOutside(pts, r, owner, {s1, s2}) by {
      forall x | 0 <= x < |pts| && owner[x] !in {s1, s2}
        ensures r[x].Next == pts[x].Next && r[x].Prev == pts[x].Prev
      {
        assert x !in rings[s1] && x !in rings[s2];
      }
    }
    forall t | 0 <= t < |recs|
      ensures RingOwned(r, recs2, rings2, owner2, t)
    {
      if t == s1 {
        forall i | 0 <= i < |joined|
          ensures owner2[joined[i]] == s1
        {
          var x := joined[i];
          if x in rings[s1] {
            var k :| 0 <= k < |rings[s1]| && rings[s1][k] == x;
          } else {
            var k :| 0 <= k < |rings[s2]| && rings[s2][k] == x;
          }
        }
      } else if t != s2 {
        OutsideRingsKept(pts, r, recs, recs2, rings, rings2, owner, owner2, {s1, s2}, t);
      }
    }
    RingsOkByParts(r, recs2, rings2, owner2);
  }

  /**
   * `AppendPolygon`'s work on the output: join record `s2`'s ring onto
   * record `s1`'s as `Joined` orders them (see `JoinRings`) and update both
   * records (see `AppendedRecs`).  Only links change, so by `JoinedPath`
   * the kept fragment's path is the two paths joined the same way.
   */
  method SpliceRings(pts: seq<OutPt>, recs: seq<OutRec>, ghost rings: seq<seq<int>>, ghost owner: seq<int>,
      s1: int, s2: int, left1: bool, left2: bool, holeFromSecond: bool)
    returns (r: seq<OutPt>, recs2: seq<OutRec>)
    requires OutputOk(pts, recs, rings, owner) && 0 <= s1 < s2 < |recs| && recs[s1].Pts != NULL && recs[s2].Pts != NULL
    ensures var joined := Joined(rings[s1], rings[s2], left1, left2);
      joined != [] && recs2 == AppendedRecs(recs, s1, s2, joined[0], holeFromSecond) &&
      OutputOk(r, recs2, rings[s1 := joined][s2 := []], Reowned(owner, s2, s1)) &&
      SameLabels(pts, r)
  {
    ghost var ring1, ring2 := rings[s1], rings[s2];
    assert RecRing(pts, recs[s1], ring1) && RecRing(pts, recs[s2], ring2);
    RingsDisjoint(pts, recs, rings, owner, s1, s2);
    r := JoinRings(pts, recs[s1].Pts, recs[s2].Pts, ring1, ring2, left1, left2);
    ghost var joined := Joined(ring1, ring2, left1, left2);
    JoinedMembers(ring1, ring2, left1, left2);
    JoinedOutputOk(pts, r, recs, rings, owner, s1, s2, joined, holeFromSecond);
    var rec1, rec2 := recs[s1], recs[s2];
    var kept := rec1.(Pts := if left1 then (if left2 then pts[rec2.Pts].Prev else rec2.Pts) else rec1.Pts);
    kept := kept.(BottomPt := NULL);
    if holeFromSecond {
      if rec2.FirstLeft != s1 {
        kept := kept.(FirstLeft := rec2.FirstLeft);
      }
      kept := kept.(IsHole := rec2.IsHole);
    }
    var absorbed := rec2.(Pts := NULL, BottomPt := NULL, FirstLeft := s1);
    absorbed := absorbed.(Idx := rec1.Idx);
    recs2 := recs[s1 := kept][s2 := absorbed];
  }

  /** A reversed sequence holds the same elements. */
  lemma RevMembers<T>(s: seq<T>)
    ensures forall x :: x in Rev(s) <==> x in s
  {
    forall x | x in s
      ensures x in Rev(s)
    {
      var i :| 0 <= i < |s| && s[i] == x;
      assert Rev(s)[|s| - 1 - i] == x;
    }
  }

  /** The joined ring holds exactly the nodes of the two rings. */
  lemma JoinedMembers(a: seq<int>, b: seq<int>, left1: bool, left2: bool)
    ensures forall x :: x in Joined(a, b, left1, left2) <==> x in a || x in b
  {
    RevMembers(b);
  }

  /** The joined ring's path is the two rings' paths joined the same way. */
  lemma JoinedPath(pts: seq<OutPt>, a: seq<int>, b: seq<int>, left1: bool, left2: bool)
    requires (forall i :: 0 <= i < |a| ==> 0 <= a[i] < |pts|) && (forall i :: 0 <= i < |b| ==> 0 <= b[i] < |pts|)
    ensures var j := Joined(a, b, left1, left2);
      (forall i :: 0 <= i < |j| ==> 0 <= j[i] < |pts|) &&
      Path(pts, j) == Joined(Path(pts, a), Path(pts, b), left1, left2)
  {
    RevPath(pts, b);
    var b2 := if left1 == left2 then Rev(b) else b;
    if left1 {
      ConcatPath(pts, b2, a);
    } else {
      ConcatPath(pts, a, b2);
    }
  }

  /** Roots depend on the records' `Idx` fields only. */
  lemma {:induction false} SameIdxRoots(recs: seq<OutRec>, recs2: seq<OutRec>, x: int)
    requires RecsOk(recs) && RecsOk(recs2) && |recs2| == |recs| && 0 <= x < |recs|
    requires forall t :: 0 <= t < |recs| ==> recs2[t].Idx == recs[t].Idx
    ensures Representative(recs2, x) == Representative(recs, x)
    decreases x
  {
    if recs[x].Idx != x {
      SameIdxRoots(recs, recs2, recs[x].Idx);
    }
  }

  /**
   * After `AppendPolygon` absorbed record `s2` into `s1`, every slot that
   * resolved to `s2` resolves to `s1` (so `GetOutRec` of the absorbed
   * record yields the kept one), and no other slot's root changes.
   */
  lemma {:induction false} AppendedRoots(recs: seq<OutRec>, s1: int, s2: int, pts1: int, holeFromSecond: bool, x: int)
    requires RecsOk(recs) && 0 <= s1 < s2 < |recs| && recs[s1].Pts != NULL && recs[s2].Pts != NULL && 0 <= x < |recs|
    requires RecsOk(AppendedRecs(recs, s1, s2, pts1, holeFromSecond))
    ensures Representative(AppendedRecs(recs, s1, s2, pts1, holeFromSecond), x) ==
      if Representative(recs, x) == s2 then s1 else Representative(recs, x)
  {
    var redirected := recs[s2 := recs[s2].(Idx := s1, Pts := NULL)];
    RedirectRoot(recs, s2, s1, x);
    SameIdxRoots(redirected, AppendedRecs(recs, s1, s2, pts1, holeFromSecond), x);
  }

  /** `UpdateOutPtIdxs`' result: every node of the ring names record `v`, every other node is untouched. */
  lemma RelabelledMeaning(pts: seq<OutPt>, ring: seq<int>, v: int)
    requires forall i :: 0 <= i < |ring| ==> 0 <= ring[i] < |pts|
    ensures var r := Relabelled(pts, ring, v);
      (forall i :: 0 <= i < |ring| ==> r[ring[i]].Idx == v) &&
      (forall x :: 0 <= x < |pts| && x !in ring ==> r[x] == pts[x])
  {
  }
}
