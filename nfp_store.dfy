/** The cache of no-fit polygons (NFPs) kept between generations of the nesting search.
  *
  * An NFP is identified by the ids of its two polygons, whether it is an inside NFP, and the two
  * rotations. Each `init` for a new individual lists the NFPs that placement needs: the pairs not
  * in the cache are queued for generation, and the cache keeps only the entries requested in this
  * cycle. Keys are modelled as tuples; the source serialises them to JSON strings.
  */
module NfpCaching {
  import opened Wrappers

  /** `{A, B, inside, Arotation, Brotation}`. */
  datatype NfpKey = NfpKey(a: int, b: int, inside: bool, aRotation: real, bRotation: real)

  /** A cached NFP: `NullNfp` is a null value, which the cache tests treat as absent. */
  datatype NfpValue = NullNfp | Nfp(id: nat)

  /** A queued request `{A, B, key}`; the two polygons are identified by their ids. */
  datatype NfpPair = NfpPair(a: int, b: int, key: NfpKey)

  /** A generated entry `{value, key}`. */
  datatype NfpData = NfpData(value: NfpValue, key: NfpKey)

  type Cache = map<NfpKey, NfpValue>

  /** A part of the placement; `init` overwrites its rotation. */
  class Part {
    const id: int
    var rotation: real

    constructor(id: int, rotation: real)
      ensures this.id == id && this.rotation == rotation
    {
      this.id := id;
      this.rotation := rotation;
    }
  }

  /** An individual of the genetic search: an order of parts and one rotation per part. */
  class Phenotype {
    const placement: seq<Part>
    const rotation: seq<real>

    constructor(placement: seq<Part>, rotation: seq<real>)
      ensures this.placement == placement && this.rotation == rotation
    {
      this.placement := placement;
      this.rotation := rotation;
    }
  }

  /** The ids of a list of parts, in order. */
  function PartIds(parts: seq<Part>): (r: seq<int>)
    ensures |r| == |parts|
    ensures forall k :: 0 <= k < |parts| ==> r[k] == parts[k].id
  {
    if parts == [] then [] else PartIds(parts[..|parts| - 1]) + [parts[|parts| - 1].id]
  }

  /** No part after position `i` and before position `n` is the part at position `i`. */
  predicate LastOccurrence(parts: seq<Part>, i: nat, n: nat)
    requires i < n <= |parts|
  {
    forall k :: i < k < n ==> parts[k] != parts[i]
  }

  /** Every part among the first `n` holds the rotation given at its last position below `n`. */
  ghost predicate RotationsSet(placeList: seq<Part>, rotations: seq<real>, n: nat)
    requires n <= |placeList| && n <= |rotations|
    reads set p | p in placeList
  {
    forall t :: 0 <= t < n && LastOccurrence(placeList, t, n) ==> placeList[t].rotation == rotations[t]
  }

  /** `cache[key]` is truthy. */
  predicate Cached(cache: Cache, key: NfpKey) {
    key in cache && cache[key].Nfp?
  }

  function BinKey(binId: int, ids: seq<int>, rotations: seq<real>, i: nat): NfpKey
    requires i < |ids| && i < |rotations|
  {
    NfpKey(binId, ids[i], true, 0.0, rotations[i])
  }

  function PairKey(ids: seq<int>, rotations: seq<real>, j: nat, i: nat): NfpKey
    requires j < |ids| && j < |rotations| && i < |ids| && i < |rotations|
  {
    NfpKey(ids[j], ids[i], false, rotations[j], rotations[i])
  }

  /** The keys requested for part `i`: its bin NFP, then one pair NFP with each of the first
    * `count` parts. */
  function RowKeys(binId: int, ids: seq<int>, rotations: seq<real>, i: nat, count: nat): (r: seq<NfpKey>)
    requires count <= i < |ids| && i < |rotations|
    ensures |r| == count + 1
    ensures r[0] == BinKey(binId, ids, rotations, i)
    ensures forall t :: 1 <= t < |r| ==> r[t] == PairKey(ids, rotations, t - 1, i)
  {
    if count == 0 then [BinKey(binId, ids, rotations, i)]
    else RowKeys(binId, ids, rotations, i, count - 1) + [PairKey(ids, rotations, count - 1, i)]
  }

  /** The keys `init` requests for the first `n` parts, in request order. */
  function RequestedKeys(binId: int, ids: seq<int>, rotations: seq<real>, n: nat): seq<NfpKey>
    requires n <= |ids| && n <= |rotations|
  {
    if n == 0 then [] else RequestedKeys(binId, ids, rotations, n - 1) + RowKeys(binId, ids, rotations, n - 1, n - 1)
  }

  /** The keys `init` requests for an individual, in request order. */
  function InitKeys(binId: int, phenotype: Phenotype): seq<NfpKey>
    requires |phenotype.rotation| == |phenotype.placement|
  {
    RequestedKeys(binId, PartIds(phenotype.placement), phenotype.rotation, |phenotype.placement|)
  }

  /** `n` parts request n(n+1)/2 NFPs: one bin NFP each and one per unordered pair. */
  lemma {:induction false} RequestedCount(binId: int, ids: seq<int>, rotations: seq<real>, n: nat)
    requires n <= |ids| && n <= |rotations|
    ensures |RequestedKeys(binId, ids, rotations, n)| * 2 == n * (n + 1)
  {
    if n > 0 {
      RequestedCount(binId, ids, rotations, n - 1);
    }
  }

  /** Every requested key is a bin key of some part (inside, against the bin at rotation 0) or an
    * outside pair key of an earlier part against a later one. */
  lemma {:induction false} RequestedShape(binId: int, ids: seq<int>, rotations: seq<real>, n: nat, key: NfpKey)
    requires n <= |ids| && n <= |rotations|
    requires key in RequestedKeys(binId, ids, rotations, n)
    ensures (key.inside && key.a == binId && key.aRotation == 0.0 &&
             exists i :: 0 <= i < n && key.b == ids[i] && key.bRotation == rotations[i]) ||
            (!key.inside && exists j, i :: 0 <= j < i < n && key == PairKey(ids, rotations, j, i))
  {
    if key in RowKeys(binId, ids, rotations, n - 1, n - 1) {
      var row := RowKeys(binId, ids, rotations, n - 1, n - 1);
      var t :| 0 <= t < |row| && row[t] == key;
      if t > 0 {
        assert key == PairKey(ids, rotations, t - 1, n - 1);
      }
    } else {
      RequestedShape(binId, ids, rotations, n - 1, key);
    }
  }

  /** The requests queued for the keys that are not cached, in order. */
  function Queue(cache: Cache, keys: seq<NfpKey>): (r: seq<NfpPair>)
    ensures |r| <= |keys|
  {
    if keys == [] then []
    else
      var key := keys[|keys| - 1];
      Queue(cache, keys[..|keys| - 1]) + (if Cached(cache, key) then [] else [NfpPair(key.a, key.b, key)])
  }

  /** The cache entries carried over into the next cycle: the cached keys that were requested. */
  function Kept(cache: Cache, keys: seq<NfpKey>): (r: Cache)
    ensures forall k :: k in r <==> k in keys && Cached(cache, k)
    ensures forall k :: k in r ==> k in cache && r[k] == cache[k]
  {
    if keys == [] then map[]
    else
      var key := keys[|keys| - 1];
      var rest := Kept(cache, keys[..|keys| - 1]);
      if Cached(cache, key) then rest[key := cache[key]] else rest
  }

  /** Handling one more key queues it or carries it over. */
  lemma AppendRequest(cache: Cache, keys: seq<NfpKey>, key: NfpKey)
    ensures Queue(cache, keys + [key]) ==
      Queue(cache, keys) + (if Cached(cache, key) then [] else [NfpPair(key.a, key.b, key)])
    ensures Kept(cache, keys + [key]) == if Cached(cache, key) then Kept(cache, keys)[key := cache[key]] else Kept(cache, keys)
  {
    assert (keys + [key])[..|keys|] == keys;
  }

  /** The queue holds one request per uncached key, for that key's two polygons. */
  lemma {:induction false} QueueMembers(cache: Cache, keys: seq<NfpKey>)
    ensures forall p :: p in Queue(cache, keys) ==>
      p.key in keys && !Cached(cache, p.key) && p.a == p.key.a && p.b == p.key.b
  {
    if keys != [] {
      QueueMembers(cache, keys[..|keys| - 1]);
    }
  }

  /** Each requested key is either carried over or queued for generation, never both. */
  lemma {:induction false} KeptOrQueued(cache: Cache, keys: seq<NfpKey>, key: NfpKey)
    requires key in keys
    ensures key in Kept(cache, keys) <==> Cached(cache, key)
    ensures (exists p :: p in Queue(cache, keys) && p.key == key) <==> !Cached(cache, key)
  {
    var last := keys[|keys| - 1];
    var front := keys[..|keys| - 1];
    assert keys == front + [last];
    QueueMembers(cache, keys);
    if key != last {
      KeptOrQueued(cache, front, key);
    } else if !Cached(cache, key) {
      assert NfpPair(key.a, key.b, key) in Queue(cache, keys);
    }
  }

  /** The cache after a cycle never holds a key the previous cache did not hold. */
  lemma KeptNeverGrows(cache: Cache, keys: seq<NfpKey>)
    ensures |Kept(cache, keys)| <= |cache|
  {
    assert Kept(cache, keys).Keys <= cache.Keys;
    SubsetCardinality(Kept(cache, keys).Keys, cache.Keys);
  }

  lemma {:induction false} SubsetCardinality<T>(a: set<T>, b: set<T>)
    requires a <= b
    ensures |a| <= |b|
  {
    if a != {} {
      var x :| x in a;
      SubsetCardinality(a - {x}, b - {x});
    }
  }

  /** The cache after storing the non-null generated entries in order. */
  function Stored(cache: Cache, generated: seq<Option<NfpData>>): Cache
  {
    if generated == [] then cache
    else
      var rest := Stored(cache, generated[..|generated| - 1]);
      match generated[|generated| - 1]
      case None => rest
      case Some(nfp) => rest[nfp.key := nfp.value]
  }

  /** Position of the last non-null generated entry for `key`, or -1. */
  function LastGenerated(generated: seq<Option<NfpData>>, key: NfpKey): (i: int)
    ensures -1 <= i < |generated|
    ensures i >= 0 ==> generated[i].Some? && generated[i].value.key == key
    ensures forall j :: i < j < |generated| ==> generated[j].None? || generated[j].value.key != key
  {
    if generated == [] then -1
    else
      var last := generated[|generated| - 1];
      if last.Some? && last.value.key == key then |generated| - 1
      else LastGenerated(generated[..|generated| - 1], key)
  }

  /** Storing keeps every old key, and a key holds the value of its last non-null generated entry,
    * or its old value when no such entry exists. */
  lemma {:induction false} StoredLookup(cache: Cache, generated: seq<Option<NfpData>>, key: NfpKey)
    ensures key in Stored(cache, generated) <==> key in cache || LastGenerated(generated, key) >= 0
    ensures key in Stored(cache, generated) ==>
      Stored(cache, generated)[key] ==
        (if LastGenerated(generated, key) >= 0 then generated[LastGenerated(generated, key)].value.value else cache[key])
  {
    if generated != [] {
      var last := generated[|generated| - 1];
      if !(last.Some? && last.value.key == key) {
        StoredLookup(cache, generated[..|generated| - 1], key);
      }
    }
  }

  /** `part.rotation = rotations[i]` for the part at position `i`. */
  method SetRotation(placeList: seq<Part>, rotations: seq<real>, i: nat)
    requires i < |placeList| == |rotations|
    requires RotationsSet(placeList, rotations, i)
    modifies placeList[i]
    ensures RotationsSet(placeList, rotations, i + 1)
  {
    placeList[i].rotation := rotations[i];
  }

  class NfpStore {
    var nfpCache: Cache
    var nfpPairs: seq<NfpPair>
    var ids: seq<int>
    var individual: Phenotype?

    constructor()
      ensures nfpCache == map[] && nfpPairs == [] && ids == [] && individual == null
    {
      nfpCache := map[];
      nfpPairs := [];
      ids := [];
      individual := null;
    }

    /** Starts a cycle for `phenotype` against the bin polygon `binId`: records the part ids,
      * sets each part's rotation, queues every requested NFP that is not cached and keeps in the
      * cache exactly the cached NFPs that were requested. */
    method Init(phenotype: Phenotype, binId: int)
      requires |phenotype.rotation| == |phenotype.placement|
      modifies this, set p | p in phenotype.placement
      ensures individual == phenotype
      ensures ids == PartIds(phenotype.placement)
      ensures nfpPairs == Queue(old(nfpCache), InitKeys(binId, phenotype))
      ensures nfpCache == Kept(old(nfpCache), InitKeys(binId, phenotype))
      ensures RotationsSet(phenotype.placement, phenotype.rotation, |phenotype.placement|)
    {
      individual := phenotype;
      nfpPairs := [];
      ids := [];
      var placeCount := |phenotype.placement|;
      ghost var oldCache := nfpCache;
      var newCache: Cache := map[];
      var i := 0;
      while i < placeCount
        invariant 0 <= i <= placeCount
        invariant individual == phenotype
        invariant InitProgress(phenotype, binId, oldCache, newCache, i)
      {
        newCache := PlacePart(phenotype, binId, i, newCache, oldCache);
        i := i + 1;
      }
      assert PartIds(phenotype.placement)[..placeCount] == PartIds(phenotype.placement);
      nfpCache := newCache;
    }

    /** The state after the first `i` rounds of the outer loop of `init`. */
    ghost predicate InitProgress(phenotype: Phenotype, binId: int, oldCache: Cache, newCache: Cache, i: nat)
      requires |phenotype.rotation| == |phenotype.placement|
      reads this, set p | p in phenotype.placement
    {
      i <= |phenotype.placement| &&
      ids == PartIds(phenotype.placement)[..i] &&
      nfpCache == oldCache &&
      Handled(RequestedKeys(binId, PartIds(phenotype.placement), phenotype.rotation, i), newCache) &&
      RotationsSet(phenotype.placement, phenotype.rotation, i)
    }

    /** One round of the outer loop of `init`: records the id of the part at position `i`, sets its
      * rotation and makes its requests. */
    method PlacePart(phenotype: Phenotype, binId: int, i: nat, newCache: Cache, ghost oldCache: Cache)
      returns (r: Cache)
      requires i < |phenotype.placement| == |phenotype.rotation|
      requires InitProgress(phenotype, binId, oldCache, newCache, i)
      modifies this, phenotype.placement[i]
      ensures individual == old(individual)
      ensures InitProgress(phenotype, binId, oldCache, r, i + 1)
    {
      var placeList := phenotype.placement;
      var part := placeList[i];
      ids := ids + [part.id];
      assert PartIds(placeList)[..i + 1] == PartIds(placeList)[..i] + [part.id];
      SetRotation(placeList, phenotype.rotation, i);
      r := RequestPart(binId, PartIds(placeList), phenotype.rotation, i, newCache);
    }

    /** The requests of part `i`: its bin NFP, then its NFP with each earlier part. */
    method RequestPart(binId: int, allIds: seq<int>, rotations: seq<real>, i: nat, newCache: Cache)
      returns (r: Cache)
      requires i < |allIds| == |rotations|
      requires Handled(RequestedKeys(binId, allIds, rotations, i), newCache)
      modifies this
      ensures nfpCache == old(nfpCache) && ids == old(ids) && individual == old(individual)
      ensures Handled(RequestedKeys(binId, allIds, rotations, i + 1), r)
    {
      ghost var before := RequestedKeys(binId, allIds, rotations, i);
      r := UpdateCache(binId, allIds[i], 0.0, rotations[i], true, newCache, before);
      ghost var requested := before + [BinKey(binId, allIds, rotations, i)];
      var j := 0;
      while j < i
        invariant 0 <= j <= i
        invariant nfpCache == old(nfpCache) && ids == old(ids) && individual == old(individual)
        invariant requested == before + RowKeys(binId, allIds, rotations, i, j)
        invariant Handled(requested, r)
      {
        r := UpdateCache(allIds[j], allIds[i], rotations[j], rotations[i], false, r, requested);
        requested := requested + [PairKey(allIds, rotations, j, i)];
        j := j + 1;
      }
    }

    /** The queue and the carried-over cache are those of the keys `requested` so far. */
    ghost predicate Handled(requested: seq<NfpKey>, newCache: Cache)
      reads this
    {
      nfpPairs == Queue(nfpCache, requested) && newCache == Kept(nfpCache, requested)
    }

    /** Queues `{A, B, key}` when the key is not cached; otherwise copies the cached value into
      * `newCache`. `requested` are the keys handled before in this cycle. */
    method UpdateCache(a: int, b: int, aRotation: real, bRotation: real, inside: bool, newCache: Cache,
                       ghost requested: seq<NfpKey>)
      returns (r: Cache)
      requires Handled(requested, newCache)
      modifies this
      ensures nfpCache == old(nfpCache) && ids == old(ids) && individual == old(individual)
      ensures !Cached(nfpCache, NfpKey(a, b, inside, aRotation, bRotation)) ==>
        nfpPairs == old(nfpPairs) + [NfpPair(a, b, NfpKey(a, b, inside, aRotation, bRotation))] && r == newCache
      ensures Cached(nfpCache, NfpKey(a, b, inside, aRotation, bRotation)) ==>
        nfpPairs == old(nfpPairs) &&
        r == newCache[NfpKey(a, b, inside, aRotation, bRotation) := nfpCache[NfpKey(a, b, inside, aRotation, bRotation)]]
      ensures Handled(requested + [NfpKey(a, b, inside, aRotation, bRotation)], r)
    {
      var key := NfpKey(a, b, inside, aRotation, bRotation);
      AppendRequest(nfpCache, requested, key);
      if !Cached(nfpCache, key) {
        nfpPairs := nfpPairs + [NfpPair(a, b, key)];
        r := newCache;
      } else {
        r := newCache[key := nfpCache[key]];
      }
    }

    /** Stores every non-null generated entry under its key, later entries overwriting earlier
      * ones; a null array changes nothing. Returns the cache. */
    method Update(generatedNfp: Option<seq<Option<NfpData>>>) returns (r: Cache)
      modifies this
      ensures generatedNfp.None? ==> nfpCache == old(nfpCache)
      ensures generatedNfp.Some? ==> nfpCache == Stored(old(nfpCache), generatedNfp.value)
      ensures r == nfpCache && nfpPairs == old(nfpPairs) && ids == old(ids) && individual == old(individual)
    {
      if generatedNfp.Some? {
        var generated := generatedNfp.value;
        var i := 0;
        while i < |generated|
          invariant 0 <= i <= |generated|
          invariant nfpCache == Stored(old(nfpCache), generated[..i])
          invariant nfpPairs == old(nfpPairs) && ids == old(ids) && individual == old(individual)
        {
          assert generated[..i + 1][..i] == generated[..i];
          var nfp := generated[i];
          if nfp.Some? {
            nfpCache := nfpCache[nfp.value.key := nfp.value.value];
          }
          i := i + 1;
        }
        assert generated[..|generated|] == generated;
      }
      return nfpCache;
    }

    /** Empties the cache, the queue and the ids and forgets the individual. */
    method Clean()
      modifies this
      ensures nfpCache == map[] && nfpPairs == [] && ids == [] && individual == null
    {
      nfpCache := map[];
      nfpPairs := [];
      ids := [];
      individual := null;
    }
  }
}
