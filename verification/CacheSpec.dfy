// The states the LRU page cache of src/page.c goes through, and when it is an LRU cache.
module CacheSpec {
  import opened Seqs

  /** A cached page id; next chains both the recency list and the hash buckets. */
  class PageRef {
    const pageId: nat
    var next: PageRef?
    var prev: PageRef?

    constructor (id: nat)
      ensures pageId == id && next == null && prev == null
    {
      pageId, next, prev := id, null, null;
    }
  }

  /** The recency list, most recent first, and the bucket array. */
  datatype Cache = Cache(order: seq<PageRef>, buckets: seq<PageRef?>)

  function Ids(order: seq<PageRef>): seq<nat> {
    seq(|order|, i requires 0 <= i < |order| => order[i].pageId)
  }

  /** What every sequence of gets keeps. */
  ghost predicate WellKept(s: Cache, capacity: nat) {
    && capacity > 0 && |s.buckets| == 2 * capacity
    && |s.order| <= capacity && NoDuplicates(s.order)
    && forall b | 0 <= b < |s.buckets| ::
         s.buckets[b] == null || (s.buckets[b] in s.order && s.buckets[b].pageId % |s.buckets| == b)
  }

  /** The first position from start on holding this id, or |order|: the walk along next pointers. */
  function PositionFrom(order: seq<PageRef>, start: nat, id: nat): (k: nat)
    requires start <= |order|
    ensures start <= k <= |order|
    ensures k < |order| ==> order[k].pageId == id
    ensures forall j | start <= j < k :: order[j].pageId != id
    decreases |order| - start
  {
    if start == |order| || order[start].pageId == id then start else PositionFrom(order, start + 1, id)
  }

  /** The position of ref in the list, or |order|. */
  function IndexOfRef(order: seq<PageRef>, ref: PageRef?): (k: nat)
    ensures k <= |order|
    ensures k < |order| ==> order[k] == ref
    ensures ref == null || ref !in order ==> k == |order|
    ensures ref != null && ref in order ==> k < |order|
  {
    if order == [] then 0 else if order[0] == ref then 0 else 1 + IndexOfRef(order[1..], ref)
  }

  /** Where a lookup finds id: it walks from its bucket's reference to the end of the recency list. */
  function HitAt(s: Cache, id: nat): (k: nat)
    requires |s.buckets| > 0
    ensures k <= |s.order|
    ensures k < |s.order| ==> s.order[k].pageId == id
  {
    PositionFrom(s.order, IndexOfRef(s.order, s.buckets[id % |s.buckets|]), id)
  }

  /** Drops the least recent entry, and its bucket if the bucket points to it. */
  function Evicted(s: Cache): Cache
    requires s.order != [] && |s.buckets| > 0
  {
    var victim := s.order[|s.order| - 1];
    var b := victim.pageId % |s.buckets|;
    Cache(s.order[..|s.order| - 1], if s.buckets[b] == victim then s.buckets[b := null] else s.buckets)
  }

  /** The n least recent entries dropped one after the other. */
  function EvictedTimes(s: Cache, n: nat): (r: Cache)
    requires n <= |s.order| && |s.buckets| > 0
    ensures |r.order| == |s.order| - n && |r.buckets| == |s.buckets|
  {
    if n == 0 then s else Evicted(EvictedTimes(s, n - 1))
  }

  /** One get of id; present tells whether the pool has such a page, entry is the entry a miss creates, if any. */
  function Got(s: Cache, capacity: nat, id: nat, present: bool, entry: PageRef?): Cache
    requires |s.buckets| > 0 && capacity > 0
  {
    var k := HitAt(s, id);
    if k < |s.order| then s.(order := [s.order[k]] + Without(s.order, k))
    else if !present || entry == null then s
    else
      var e := if |s.order| >= capacity then Evicted(s) else s;
      Cache([entry] + e.order, e.buckets[id % |s.buckets| := entry])
  }

  /** A get that adds to the cache has a new entry for its id. */
  predicate Fits(s: Cache, id: nat, present: bool, entry: PageRef?)
    requires |s.buckets| > 0
  {
    HitAt(s, id) == |s.order| && present ==> entry != null && entry.pageId == id && entry !in s.order
  }

  lemma EvictedKeeps(s: Cache, capacity: nat)
    requires WellKept(s, capacity) && s.order != []
    ensures WellKept(Evicted(s), capacity) && |Evicted(s).order| == |s.order| - 1
    ensures forall r | r in Evicted(s).order :: r in s.order
  {
    var victim, e := s.order[|s.order| - 1], Evicted(s);
    forall b | 0 <= b < |e.buckets| && e.buckets[b] != null ensures e.buckets[b] in e.order {
      var r := s.buckets[b];
      assert r in s.order && r.pageId % |s.buckets| == b;
      var i :| 0 <= i < |s.order| && s.order[i] == r;
      assert r != victim;
      assert e.order[i] == r;
    }
  }

  lemma MovedToFrontKeeps(s: Cache, capacity: nat, k: nat)
    requires WellKept(s, capacity) && k < |s.order|
    ensures WellKept(s.(order := [s.order[k]] + Without(s.order, k)), capacity)
  {
    var order := [s.order[k]] + Without(s.order, k);
    forall r | r in s.order ensures r in order {
      var i :| 0 <= i < |s.order| && s.order[i] == r;
      if i < k { assert order[i + 1] == r; } else if i > k { assert order[i] == r; } else { assert order[0] == r; }
    }
  }

  lemma AddedKeeps(s: Cache, capacity: nat, entry: PageRef)
    requires WellKept(s, capacity) && |s.order| < capacity && entry !in s.order
    ensures WellKept(Cache([entry] + s.order, s.buckets[entry.pageId % |s.buckets| := entry]), capacity)
  {
  }

  /** Every get keeps the list free of repeats and within capacity, and every bucket pointing into it. */
  lemma GotKeeps(s: Cache, capacity: nat, id: nat, present: bool, entry: PageRef?)
    requires WellKept(s, capacity) && Fits(s, id, present, entry)
    ensures WellKept(Got(s, capacity, id, present, entry), capacity)
  {
    hide WellKept, HitAt, Evicted;
    BucketsExist(s, capacity);
    var k := HitAt(s, id);
    if k < |s.order| {
      MovedToFrontKeeps(s, capacity, k);
    } else if present {
      if |s.order| >= capacity {
        EvictedKeeps(s, capacity);
        EvictedCount(s);
        AddedKeeps(Evicted(s), capacity, entry);
      } else {
        AddedKeeps(s, capacity, entry);
      }
    }
  }

  lemma BucketsExist(s: Cache, capacity: nat)
    requires WellKept(s, capacity)
    ensures capacity > 0 && |s.buckets| == 2 * capacity && |s.order| <= capacity
  {
  }

  lemma EvictedCount(s: Cache)
    requires s.order != [] && |s.buckets| > 0
    ensures |Evicted(s).buckets| == |s.buckets| && Evicted(s).order == s.order[..|s.order| - 1]
  {
  }

  // ---------- When a get is a step of the LRU policy ----------

  /** What the LRU policy does with a page that is cached or fetched. */
  function Touched(ids: seq<nat>, capacity: nat, id: nat): seq<nat>
    requires capacity > 0
  {
    if id in ids then [id] + Others(ids, id)
    else if |ids| >= capacity then [id] + ids[..|ids| - 1]
    else [id] + ids
  }

  /** One get under the LRU policy: a page neither cached nor in the pool changes nothing. */
  function Policy(ids: seq<nat>, capacity: nat, id: nat, present: bool): seq<nat>
    requires capacity > 0
  {
    if present || id in ids then Touched(ids, capacity, id) else ids
  }

  /** ids without its occurrences of id. */
  function Others(ids: seq<nat>, id: nat): (r: seq<nat>)
    ensures id !in r
    ensures forall x | x in r :: x in ids
  {
    if ids == [] then [] else (if ids[0] == id then [] else [ids[0]]) + Others(ids[1..], id)
  }

  lemma {:induction false} OthersSkips(ids: seq<nat>, k: nat)
    requires k < |ids| && forall j | 0 <= j < |ids| && j != k :: ids[j] != ids[k]
    ensures Others(ids, ids[k]) == Without(ids, k)
  {
    if k == 0 {
      OthersSame(ids[1..], ids[0]);
    } else {
      OthersSkips(ids[1..], k - 1);
      assert Without(ids, k) == [ids[0]] + Without(ids[1..], k - 1);
    }
  }

  lemma {:induction false} OthersSame(ids: seq<nat>, id: nat)
    requires id !in ids
    ensures Others(ids, id) == ids
  {
    if ids != [] { OthersSame(ids[1..], id); }
  }

  lemma IdsMoved(order: seq<PageRef>, i: nat)
    requires i < |order|
    ensures Ids([order[i]] + Without(order, i)) == [Ids(order)[i]] + Without(Ids(order), i)
  {
  }

  lemma IdsAdded(order: seq<PageRef>, n: nat, entry: PageRef)
    requires n <= |order|
    ensures Ids([entry] + order[..n]) == [entry.pageId] + Ids(order)[..n]
  {
  }

  lemma IdsCount(order: seq<PageRef>)
    ensures |Ids(order)| == |order| && forall i | 0 <= i < |order| :: Ids(order)[i] == order[i].pageId
  {
  }

  /** The ids after a get, by what the lookup finds. */
  lemma GotIds(s: Cache, capacity: nat, id: nat, present: bool, entry: PageRef?)
    requires WellKept(s, capacity) && Fits(s, id, present, entry)
    ensures var k, ids := HitAt(s, id), Ids(s.order);
      && |ids| == |s.order|
      && Ids(Got(s, capacity, id, present, entry).order) ==
           if k < |ids| then [ids[k]] + Without(ids, k)
           else if !present then ids
           else [id] + if |ids| == capacity then ids[..|ids| - 1] else ids
  {
    hide HitAt, Ids;
    BucketsExist(s, capacity);
    IdsCount(s.order);
    var k, n := HitAt(s, id), |s.order|;
    if k < n {
      IdsMoved(s.order, k);
    } else if present {
      IdsAdded(s.order, if n >= capacity then n - 1 else n, entry);
      assert s.order[..n] == s.order && Ids(s.order)[..n] == Ids(s.order);
    }
  }

  /** Whether the lookup finds a cached id, or does no harm by missing it: the get that misses a cached
      id evicts that very entry, or, with the page gone from the pool, leaves it where it is, in front. */
  predicate Follows(s: Cache, capacity: nat, id: nat, present: bool)
    requires |s.buckets| > 0
  {
    var ids := Ids(s.order);
    id in ids ==>
      || HitAt(s, id) < |s.order|
      || (if present then |ids| == capacity && ids[|ids| - 1] == id else ids[0] == id)
  }

  /** Taking the only id at k out is dropping the end, or nothing at all behind the front, just when k says so. */
  lemma WithoutPlaces(ids: seq<nat>, k: nat)
    requires NoDuplicates(ids) && k < |ids|
    ensures Without(ids, k) == ids[..|ids| - 1] <==> k == |ids| - 1
    ensures [ids[k]] + Without(ids, k) == ids <==> k == 0
  {
    if k < |ids| - 1 { assert Without(ids, k)[k] == ids[k + 1] && ids[..|ids| - 1][k] == ids[k]; }
    if k > 0 { assert ([ids[k]] + Without(ids, k))[0] == ids[k]; }
  }

  lemma SameFront(id: nat, a: seq<nat>, b: seq<nat>)
    ensures [id] + a == [id] + b <==> a == b
  {
    assert ([id] + a)[1..] == a && ([id] + b)[1..] == b;
  }

  /** A get of a cache without repeated ids is one step of the LRU policy exactly when it follows it. */
  lemma GetIsLRUIff(s: Cache, capacity: nat, id: nat, present: bool, entry: PageRef?)
    requires WellKept(s, capacity) && NoDuplicates(Ids(s.order)) && Fits(s, id, present, entry)
    ensures capacity > 0 && |s.buckets| > 0
    ensures Ids(Got(s, capacity, id, present, entry).order) == Policy(Ids(s.order), capacity, id, present)
       <==> Follows(s, capacity, id, present)
  {
    hide WellKept, HitAt, Got, Others, Without, Ids;
    BucketsExist(s, capacity);
    GotIds(s, capacity, id, present, entry);
    var ids, k := Ids(s.order), HitAt(s, id);
    IdsCount(s.order);
    if id in ids {
      var j :| 0 <= j < |ids| && ids[j] == id;
      OthersSkips(ids, j);
      if k < |ids| {
        assert ids[k] == id;
      } else {
        WithoutPlaces(ids, j);
        SameFront(id, ids[..|ids| - 1], Without(ids, j));
      }
    }
  }

  // ---------- Caches whose buckets find everything ----------

  /** Every cached reference is the one its bucket points to. */
  ghost predicate Indexed(s: Cache) {
    && |s.buckets| > 0
    && forall i | 0 <= i < |s.order| :: s.buckets[s.order[i].pageId % |s.buckets|] == s.order[i]
  }

  /** No two of the ids share one of size buckets. */
  ghost predicate Apart(ids: seq<nat>, size: nat)
    requires size > 0
  {
    forall i, j | 0 <= i < j < |ids| :: ids[i] % size != ids[j] % size
  }

  lemma IndexedHit(s: Cache, capacity: nat, i: nat)
    requires WellKept(s, capacity) && Indexed(s) && i < |s.order|
    ensures HitAt(s, s.order[i].pageId) == i
  {
    var id := s.order[i].pageId;
    var start := IndexOfRef(s.order, s.buckets[id % |s.buckets|]);
    assert s.order[start] == s.order[i];
    assert start == i;
  }

  /** In such a cache all ids lie apart, so none repeats, and a lookup misses only what is not cached. */
  lemma IndexedFollows(s: Cache, capacity: nat, id: nat, present: bool)
    requires WellKept(s, capacity) && Indexed(s)
    ensures Apart(Ids(s.order), |s.buckets|) && NoDuplicates(Ids(s.order))
    ensures HitAt(s, id) == |s.order| <==> id !in Ids(s.order)
    ensures Follows(s, capacity, id, present)
  {
    hide HitAt, Ids;
    IdsCount(s.order);
    var ids := Ids(s.order);
    forall i, j | 0 <= i < j < |ids| ensures ids[i] % |s.buckets| != ids[j] % |s.buckets| {
      assert s.buckets[s.order[i].pageId % |s.buckets|] == s.order[i];
      assert s.buckets[s.order[j].pageId % |s.buckets|] == s.order[j];
    }
    if id in ids {
      var i :| 0 <= i < |ids| && ids[i] == id;
      IndexedHit(s, capacity, i);
    }
    if HitAt(s, id) < |s.order| { assert ids[HitAt(s, id)] == id; }
  }

  /** On an indexed cache a get is one step of the LRU policy. */
  lemma IndexedGetIsLRU(s: Cache, capacity: nat, id: nat, present: bool, entry: PageRef?)
    requires WellKept(s, capacity) && Indexed(s) && Fits(s, id, present, entry)
    ensures capacity > 0
    ensures Ids(Got(s, capacity, id, present, entry).order) == Policy(Ids(s.order), capacity, id, present)
  {
    hide WellKept, Indexed, HitAt, Ids, Got, Policy, Follows;
    BucketsExist(s, capacity);
    IndexedFollows(s, capacity, id, present);
    GetIsLRUIff(s, capacity, id, present, entry);
  }

  lemma EvictedIndexed(s: Cache, capacity: nat)
    requires WellKept(s, capacity) && Indexed(s) && s.order != []
    ensures Indexed(Evicted(s))
  {
    var n := |s.order| - 1;
    forall i | 0 <= i < n ensures Evicted(s).buckets[s.order[i].pageId % |s.buckets|] == s.order[i] {
      assert s.order[i] != s.order[n];
    }
  }

  /** A new entry keeps the cache indexed when no other id left shares its bucket. */
  lemma AddedIndexed(e: Cache, entry: PageRef)
    requires Indexed(e) && Apart(Ids([entry] + e.order), |e.buckets|)
    ensures Indexed(Cache([entry] + e.order, e.buckets[entry.pageId % |e.buckets| := entry]))
  {
    var order := [entry] + e.order;
    IdsCount(order);
    forall i | 0 < i < |order| ensures order[i].pageId % |e.buckets| != entry.pageId % |e.buckets| {
      assert Ids(order)[0] % |e.buckets| != Ids(order)[i] % |e.buckets|;
    }
  }

  /** A get keeps the cache indexed exactly when the ids it leaves lie apart. */
  lemma GotIndexedIff(s: Cache, capacity: nat, id: nat, present: bool, entry: PageRef?)
    requires WellKept(s, capacity) && Indexed(s) && Fits(s, id, present, entry)
    ensures capacity > 0
    ensures Indexed(Got(s, capacity, id, present, entry))
       <==> Apart(Ids(Got(s, capacity, id, present, entry).order), |s.buckets|)
  {
    hide WellKept, HitAt, Apart, Ids, Indexed, Evicted;
    BucketsExist(s, capacity);
    var t, k := Got(s, capacity, id, present, entry), HitAt(s, id);
    GotKeeps(s, capacity, id, present, entry);
    if Indexed(t) {
      BucketsExist(t, capacity);
      IndexedFollows(t, capacity, id, present);
    }
    if k < |s.order| {
      MovedIndexed(s, k);
    } else if present && Apart(Ids(t.order), |s.buckets|) {
      if |s.order| >= capacity {
        EvictedIndexed(s, capacity);
        EvictedCount(s);
        AddedIndexed(Evicted(s), entry);
      } else {
        AddedIndexed(s, entry);
      }
    }
  }

  lemma MovedIndexed(s: Cache, k: nat)
    requires Indexed(s) && k < |s.order|
    ensures Indexed(s.(order := [s.order[k]] + Without(s.order, k)))
  {
    var order := [s.order[k]] + Without(s.order, k);
    forall i | 0 <= i < |order| ensures s.buckets[order[i].pageId % |s.buckets|] == order[i] {
      assert order[i] == s.order[if i == 0 then k else if i <= k then i - 1 else i];
    }
  }

  // ---------- Runs ----------

  /** A run of gets: present says of each whether the pool has the page, entries are the new entries. */
  ghost predicate Run(states: seq<Cache>, capacity: nat, ids: seq<nat>, present: seq<bool>, entries: seq<PageRef?>) {
    && |states| == |ids| + 1 && |present| == |ids| && |entries| == |ids|
    && capacity > 0 && states[0] == Cache([], seq(2 * capacity, _ => null))
    && (forall i | 0 <= i < |ids| :: |states[i].buckets| > 0
          && Fits(states[i], ids[i], present[i], entries[i])
          && states[i + 1] == Got(states[i], capacity, ids[i], present[i], entries[i]))
  }

  /** The ids cached after a run under the LRU policy. */
  function PolicyAll(capacity: nat, ids: seq<nat>, present: seq<bool>): seq<nat>
    requires capacity > 0 && |present| == |ids|
  {
    if ids == [] then []
    else var n := |ids| - 1; Policy(PolicyAll(capacity, ids[..n], present[..n]), capacity, ids[n], present[n])
  }

  /** When x was last asked for: the number of gets up to and with that one, 0 for never. */
  function LastUse(ids: seq<nat>, x: nat): nat {
    if ids == [] then 0 else if ids[|ids| - 1] == x then |ids| else LastUse(ids[..|ids| - 1], x)
  }

  /** x was asked for, and is in the pool. */
  ghost predicate Fetched(ids: seq<nat>, present: seq<bool>, x: nat)
    requires |present| == |ids|
  {
    exists i | 0 <= i < |ids| :: ids[i] == x && present[i]
  }

  /** cached holds the pages of the pool last asked for, each once, the latest first, as many as there is room for. */
  ghost predicate LatestFirst(cached: seq<nat>, capacity: nat, ids: seq<nat>, present: seq<bool>)
    requires |present| == |ids|
  {
    && |cached| <= capacity && NoDuplicates(cached)
    && (forall i | 0 <= i < |cached| :: Fetched(ids, present, cached[i]))
    && (forall i, j | 0 <= i < j < |cached| :: LastUse(ids, cached[i]) > LastUse(ids, cached[j]))
    && (forall x | Fetched(ids, present, x) && x !in cached ::
          |cached| == capacity && forall i | 0 <= i < |cached| :: LastUse(ids, x) < LastUse(ids, cached[i]))
  }

  lemma LastUseNext(ids: seq<nat>, x: nat)
    requires ids != []
    ensures var n := |ids| - 1;
      && LastUse(ids, x) == (if ids[n] == x then |ids| else LastUse(ids[..n], x)) && LastUse(ids[..n], x) <= n
  {
    LastUseBound(ids[..|ids| - 1], x);
  }

  lemma {:induction false} LastUseBound(ids: seq<nat>, x: nat)
    ensures LastUse(ids, x) <= |ids|
  {
    if ids != [] && ids[|ids| - 1] != x { LastUseBound(ids[..|ids| - 1], x); }
  }

  lemma FetchedNext(ids: seq<nat>, present: seq<bool>, x: nat)
    requires ids != [] && |present| == |ids|
    ensures var n := |ids| - 1;
      Fetched(ids, present, x) <==> Fetched(ids[..n], present[..n], x) || (ids[n] == x && present[n])
  {
    var n := |ids| - 1;
    if Fetched(ids[..n], present[..n], x) {
      var i :| 0 <= i < n && ids[..n][i] == x && present[..n][i];
      assert ids[i] == x && present[i];
    }
    if Fetched(ids, present, x) && !(ids[n] == x && present[n]) {
      var i :| 0 <= i < |ids| && ids[i] == x && present[i];
      assert ids[..n][i] == x && present[..n][i];
    }
  }

  /** The policy is least recently used. */
  lemma {:induction false} PolicyIsLeastRecentlyUsed(capacity: nat, ids: seq<nat>, present: seq<bool>)
    requires capacity > 0 && |present| == |ids|
    requires forall i, j | 0 <= i < |ids| && 0 <= j < |ids| && ids[i] == ids[j] :: present[i] == present[j]
    ensures LatestFirst(PolicyAll(capacity, ids, present), capacity, ids, present)
  {
    hide Touched, Fetched, LatestFirst, LastUse;
    if ids == [] {
      NothingFetched(capacity, ids, present);
    } else {
      var n := |ids| - 1;
      var id, before := ids[n], PolicyAll(capacity, ids[..n], present[..n]);
      PolicyIsLeastRecentlyUsed(capacity, ids[..n], present[..n]);
      if present[n] {
        TouchedIsLatest(before, capacity, ids, present);
      } else {
        if id in before { CachedIsPresent(before, capacity, ids, present); }
        MissingIsIgnored(before, capacity, ids, present);
      }
    }
  }

  lemma NothingFetched(capacity: nat, ids: seq<nat>, present: seq<bool>)
    requires ids == [] && present == []
    ensures LatestFirst([], capacity, ids, present)
  {
  }

  /** A page that is cached was in the pool when it was asked for, and so is when asked for again. */
  lemma CachedIsPresent(cached: seq<nat>, capacity: nat, ids: seq<nat>, present: seq<bool>)
    requires ids != [] && |present| == |ids|
    requires forall i, j | 0 <= i < |ids| && 0 <= j < |ids| && ids[i] == ids[j] :: present[i] == present[j]
    requires var n := |ids| - 1; LatestFirst(cached, capacity, ids[..n], present[..n]) && ids[n] in cached
    ensures present[|ids| - 1]
  {
    var n := |ids| - 1;
    var k :| 0 <= k < |cached| && cached[k] == ids[n];
    var i :| 0 <= i < n && ids[..n][i] == ids[n] && present[..n][i];
    assert ids[i] == ids[n];
  }

  lemma MissingIsIgnored(cached: seq<nat>, capacity: nat, ids: seq<nat>, present: seq<bool>)
    requires ids != [] && |present| == |ids| && !present[|ids| - 1] && ids[|ids| - 1] !in cached
    requires LatestFirst(cached, capacity, ids[..|ids| - 1], present[..|ids| - 1])
    requires forall i, j | 0 <= i < |ids| && 0 <= j < |ids| && ids[i] == ids[j] :: present[i] == present[j]
    ensures LatestFirst(cached, capacity, ids, present)
  {
    hide Fetched, LastUse;
    var n := |ids| - 1;
    forall x ensures Fetched(ids, present, x) <==> Fetched(ids[..n], present[..n], x) { FetchedNext(ids, present, x); }
    forall i | 0 <= i < |cached| ensures LastUse(ids, cached[i]) == LastUse(ids[..n], cached[i]) {
      LastUseNext(ids, cached[i]);
    }
    forall x | Fetched(ids, present, x) ensures LastUse(ids, x) == LastUse(ids[..n], x) {
      LastUseNext(ids, x);
      FetchedPresent(ids, present, x);
    }
  }

  lemma FetchedPresent(ids: seq<nat>, present: seq<bool>, x: nat)
    requires ids != [] && |present| == |ids| && Fetched(ids, present, x) && !present[|ids| - 1]
    requires forall i, j | 0 <= i < |ids| && 0 <= j < |ids| && ids[i] == ids[j] :: present[i] == present[j]
    ensures ids[|ids| - 1] != x
  {
  }

  /** Asking for a page of the pool puts it in front of what is kept of the others. */
  lemma FrontIsLatest(kept: seq<nat>, capacity: nat, ids: seq<nat>, present: seq<bool>)
    requires ids != [] && |present| == |ids| && present[|ids| - 1]
    requires |kept| < capacity && NoDuplicates(kept)
    requires var n := |ids| - 1;
      && (forall i | 0 <= i < |kept| :: Fetched(ids[..n], present[..n], kept[i]) && kept[i] != ids[n])
      && (forall i, j | 0 <= i < j < |kept| :: LastUse(ids[..n], kept[i]) > LastUse(ids[..n], kept[j]))
      && (forall x | Fetched(ids[..n], present[..n], x) && x != ids[n] && x !in kept ::
            |kept| + 1 == capacity && forall i | 0 <= i < |kept| :: LastUse(ids[..n], x) < LastUse(ids[..n], kept[i]))
    ensures LatestFirst([ids[|ids| - 1]] + kept, capacity, ids, present)
  {
    hide Fetched, LastUse;
    var n, id, all := |ids| - 1, ids[|ids| - 1], [ids[|ids| - 1]] + kept;
    LastUseNext(ids, id);
    FetchedNext(ids, present, id);
    forall i | 0 <= i < |all| ensures Fetched(ids, present, all[i]) { FetchedNext(ids, present, all[i]); }
    forall i, j | 0 <= i < j < |all| ensures LastUse(ids, all[i]) > LastUse(ids, all[j]) {
      LastUseNext(ids, all[i]);
      LastUseNext(ids, all[j]);
    }
    forall x | Fetched(ids, present, x) && x !in all
      ensures |all| == capacity && forall i | 0 <= i < |all| :: LastUse(ids, x) < LastUse(ids, all[i])
    {
      assert all[0] == id && forall i | 0 <= i < |kept| :: all[i + 1] == kept[i];
      FetchedNext(ids, present, x);
      LastUseNext(ids, x);
      forall i | 0 <= i < |all| ensures LastUse(ids, x) < LastUse(ids, all[i]) { LastUseNext(ids, all[i]); }
    }
  }

  /** What is kept in the three cases: all others, all, or all but the last. */
  lemma TouchedIsLatest(cached: seq<nat>, capacity: nat, ids: seq<nat>, present: seq<bool>)
    requires capacity > 0 && ids != [] && |present| == |ids| && present[|ids| - 1]
    requires LatestFirst(cached, capacity, ids[..|ids| - 1], present[..|ids| - 1])
    ensures LatestFirst(Touched(cached, capacity, ids[|ids| - 1]), capacity, ids, present)
  {
    hide LatestFirst, Others, NoDuplicates;
    LatestParts(cached, capacity, ids[..|ids| - 1], present[..|ids| - 1]);
    if ids[|ids| - 1] in cached {
      MoveToFront(cached, capacity, ids, present);
    } else if |cached| < capacity {
      KeepAll(cached, capacity, ids, present);
    } else {
      DropLast(cached, capacity, ids, present);
    }
  }

  lemma LatestParts(cached: seq<nat>, capacity: nat, ids: seq<nat>, present: seq<bool>)
    requires |present| == |ids| && LatestFirst(cached, capacity, ids, present)
    ensures |cached| <= capacity && NoDuplicates(cached)
  {
  }

  lemma KeepAll(cached: seq<nat>, capacity: nat, ids: seq<nat>, present: seq<bool>)
    requires |cached| < capacity && ids != [] && |present| == |ids| && present[|ids| - 1]
    requires LatestFirst(cached, capacity, ids[..|ids| - 1], present[..|ids| - 1]) && ids[|ids| - 1] !in cached
    ensures LatestFirst([ids[|ids| - 1]] + cached, capacity, ids, present)
  {
    hide Fetched, LastUse;
    FrontIsLatest(cached, capacity, ids, present);
  }

  lemma MoveToFront(cached: seq<nat>, capacity: nat, ids: seq<nat>, present: seq<bool>)
    requires capacity > 0 && ids != [] && |present| == |ids| && present[|ids| - 1]
    requires LatestFirst(cached, capacity, ids[..|ids| - 1], present[..|ids| - 1]) && ids[|ids| - 1] in cached
    ensures LatestFirst([ids[|ids| - 1]] + Others(cached, ids[|ids| - 1]), capacity, ids, present)
  {
    hide Fetched, LastUse, Others, Without, NoDuplicates, LatestFirst;
    var n, id := |ids| - 1, ids[|ids| - 1];
    var k :| 0 <= k < |cached| && cached[k] == id;
    LatestParts(cached, capacity, ids[..n], present[..n]);
    OnlyAt(cached, k);
    OthersSkips(cached, k);
    WithoutDistinct(cached, k);
    LatestWithout(cached, capacity, ids[..n], present[..n], k);
    FrontIsLatest(Without(cached, k), capacity, ids, present);
  }

  /** Without one of them, the others are still the latest, apart from that one. */
  lemma LatestWithout(cached: seq<nat>, capacity: nat, ids: seq<nat>, present: seq<bool>, k: nat)
    requires |present| == |ids| && LatestFirst(cached, capacity, ids, present) && k < |cached|
    ensures var kept, id := Without(cached, k), cached[k];
      && |kept| + 1 == |cached|
      && (forall i | 0 <= i < |kept| :: Fetched(ids, present, kept[i]) && kept[i] != id)
      && (forall i, j | 0 <= i < j < |kept| :: LastUse(ids, kept[i]) > LastUse(ids, kept[j]))
      && (forall x | Fetched(ids, present, x) && x != id && x !in kept ::
            |kept| + 1 == capacity && forall i | 0 <= i < |kept| :: LastUse(ids, x) < LastUse(ids, kept[i]))
  {
    hide Fetched, LastUse, Without;
    var kept := Without(cached, k);
    OnlyAt(cached, k);
    WithoutAt(cached, k);
  }

  lemma OnlyAt(s: seq<nat>, k: nat)
    requires NoDuplicates(s) && k < |s|
    ensures forall i | 0 <= i < |s| && i != k :: s[i] != s[k]
  {
  }

  lemma WithoutAt(s: seq<nat>, k: nat)
    requires k < |s|
    ensures forall i | 0 <= i < |s| - 1 :: Without(s, k)[i] == s[if i < k then i else i + 1]
    ensures forall x | x in s && x != s[k] :: x in Without(s, k)
  {
    forall x | x in s && x != s[k] ensures x in Without(s, k) {
      var i :| 0 <= i < |s| && s[i] == x;
      assert Without(s, k)[if i < k then i else i - 1] == x;
    }
  }

  lemma DropLast(cached: seq<nat>, capacity: nat, ids: seq<nat>, present: seq<bool>)
    requires |cached| == capacity > 0 && ids != [] && |present| == |ids| && present[|ids| - 1]
    requires LatestFirst(cached, capacity, ids[..|ids| - 1], present[..|ids| - 1]) && ids[|ids| - 1] !in cached
    ensures LatestFirst([ids[|ids| - 1]] + cached[..|cached| - 1], capacity, ids, present)
  {
    hide Fetched, LastUse;
    var n, m := |ids| - 1, |cached| - 1;
    var kept := cached[..m];
    assert forall j | 0 <= j < m :: kept[j] == cached[j] && cached[j] in kept;
    forall x | Fetched(ids[..n], present[..n], x) && x !in kept
      ensures forall i | 0 <= i < |kept| :: LastUse(ids[..n], x) < LastUse(ids[..n], kept[i])
    {
      if x in cached {
        var j :| 0 <= j < |cached| && cached[j] == x;
      }
    }
    FrontIsLatest(kept, capacity, ids, present);
  }

  lemma EmptyKept(capacity: nat)
    requires capacity > 0
    ensures WellKept(Cache([], seq(2 * capacity, _ => null)), capacity)
    ensures Indexed(Cache([], seq(2 * capacity, _ => null)))
    ensures Ids([]) == []
  {
  }

  lemma RunPrefix(states: seq<Cache>, capacity: nat, ids: seq<nat>, present: seq<bool>, entries: seq<PageRef?>)
    requires Run(states, capacity, ids, present, entries) && ids != []
    ensures var n := |ids| - 1; Run(states[..n + 1], capacity, ids[..n], present[..n], entries[..n])
  {
    hide Got, Fits;
  }

  /** Over every run the list has no repeats, stays within capacity, and buckets point into it. */
  lemma {:induction false} RunKeeps(states: seq<Cache>, capacity: nat, ids: seq<nat>, present: seq<bool>, entries: seq<PageRef?>)
    requires Run(states, capacity, ids, present, entries)
    ensures WellKept(states[|ids|], capacity)
    decreases |ids|
  {
    hide WellKept, Got, Fits;
    if ids == [] {
      EmptyKept(capacity);
    } else {
      var n := |ids| - 1;
      RunPrefix(states, capacity, ids, present, entries);
      RunKeeps(states[..n + 1], capacity, ids[..n], present[..n], entries[..n]);
      assert states[n] == states[..n + 1][n];
      GotKeeps(states[n], capacity, ids[n], present[n], entries[n]);
    }
  }

  /** The last get of a run, from a state the earlier gets have kept well. */
  lemma LastGet(states: seq<Cache>, capacity: nat, ids: seq<nat>, present: seq<bool>, entries: seq<PageRef?>)
    requires Run(states, capacity, ids, present, entries) && ids != []
    ensures var n := |ids| - 1;
      && WellKept(states[n], capacity)
      && |states[n].buckets| > 0 && Fits(states[n], ids[n], present[n], entries[n])
      && states[n + 1] == Got(states[n], capacity, ids[n], present[n], entries[n])
  {
    hide WellKept, Got, Fits;
    var n := |ids| - 1;
    RunPrefix(states, capacity, ids, present, entries);
    RunKeeps(states[..n + 1], capacity, ids[..n], present[..n], entries[..n]);
    assert states[n] == states[..n + 1][n];
  }

  lemma {:induction false} PolicyDistinct(capacity: nat, ids: seq<nat>, present: seq<bool>)
    requires capacity > 0 && |present| == |ids|
    ensures NoDuplicates(PolicyAll(capacity, ids, present))
  {
    if ids != [] {
      var n := |ids| - 1;
      PolicyDistinct(capacity, ids[..n], present[..n]);
      TouchedDistinct(PolicyAll(capacity, ids[..n], present[..n]), capacity, ids[n]);
    }
  }

  lemma TouchedDistinct(ids: seq<nat>, capacity: nat, id: nat)
    requires NoDuplicates(ids) && capacity > 0
    ensures NoDuplicates(Touched(ids, capacity, id))
  {
    hide Others;
    if id in ids {
      var j :| 0 <= j < |ids| && ids[j] == id;
      OthersSkips(ids, j);
      WithoutDistinct(ids, j);
      FrontDistinct(Others(ids, id), id);
    } else {
      FrontDistinct(if |ids| >= capacity then ids[..|ids| - 1] else ids, id);
    }
  }

  lemma WithoutDistinct(ids: seq<nat>, k: nat)
    requires NoDuplicates(ids) && k < |ids|
    ensures NoDuplicates(Without(ids, k))
  {
  }

  lemma FrontDistinct(ids: seq<nat>, id: nat)
    requires NoDuplicates(ids) && id !in ids
    ensures NoDuplicates([id] + ids)
  {
  }

  /** The list agrees with the policy all along a run exactly when every get follows it. */
  lemma {:induction false} RunIsLRUIff(states: seq<Cache>, capacity: nat, ids: seq<nat>, present: seq<bool>, entries: seq<PageRef?>)
    requires Run(states, capacity, ids, present, entries)
    ensures (forall n | 0 <= n <= |ids| :: Ids(states[n].order) == PolicyAll(capacity, ids[..n], present[..n]))
       <==> (forall n | 0 <= n < |ids| :: Follows(states[n], capacity, ids[n], present[n]))
  {
    hide WellKept, Got, Policy, Follows, Fits, Ids, Run;
    RunShape(states, capacity, ids, present, entries);
    if ids == [] {
      EmptyKept(capacity);
      assert ids[..0] == [] && PolicyAll(capacity, ids[..0], present[..0]) == [];
    } else {
      var m := |ids| - 1;
      RunPrefix(states, capacity, ids, present, entries);
      RunIsLRUIff(states[..m + 1], capacity, ids[..m], present[..m], entries[..m]);
      LastGet(states, capacity, ids, present, entries);
      PrefixesAgree(states, capacity, ids, present);
      PolicyDistinct(capacity, ids[..m], present[..m]);
      assert ids[..m + 1] == ids && present[..m + 1] == present;
      if Ids(states[m].order) == PolicyAll(capacity, ids[..m], present[..m]) {
        GetIsLRUIff(states[m], capacity, ids[m], present[m], entries[m]);
      }
    }
  }

  lemma RunShape(states: seq<Cache>, capacity: nat, ids: seq<nat>, present: seq<bool>, entries: seq<PageRef?>)
    requires Run(states, capacity, ids, present, entries)
    ensures capacity > 0 && |states| == |ids| + 1 && |present| == |ids| && |entries| == |ids|
    ensures states[0].order == [] && forall i | 0 <= i < |ids| :: |states[i].buckets| > 0
  {
  }

  /** What the claim about a run says of the run without its last get. */
  lemma PrefixesAgree(states: seq<Cache>, capacity: nat, ids: seq<nat>, present: seq<bool>)
    requires ids != [] && capacity > 0 && |states| == |ids| + 1 && |present| == |ids|
    requires forall i | 0 <= i < |ids| :: |states[i].buckets| > 0
    ensures var m := |ids| - 1;
      && ((forall n | 0 <= n <= m :: Ids(states[..m + 1][n].order) == PolicyAll(capacity, ids[..m][..n], present[..m][..n]))
          <==> (forall n | 0 <= n <= m :: Ids(states[n].order) == PolicyAll(capacity, ids[..n], present[..n])))
      && ((forall n | 0 <= n < m :: Follows(states[..m + 1][n], capacity, ids[..m][n], present[..m][n]))
          <==> (forall n | 0 <= n < m :: Follows(states[n], capacity, ids[n], present[n])))
  {
    hide Ids, PolicyAll, Follows;
    var m := |ids| - 1;
    forall n | 0 <= n <= m
      ensures states[..m + 1][n] == states[n] && ids[..m][..n] == ids[..n] && present[..m][..n] == present[..n]
    {
    }
  }

  /** A run whose ids, under the policy, lie apart at every time agrees with the policy all along. */
  lemma {:induction false} RunIsLRU(states: seq<Cache>, capacity: nat, ids: seq<nat>, present: seq<bool>, entries: seq<PageRef?>)
    requires Run(states, capacity, ids, present, entries)
    requires forall n | 0 <= n <= |ids| :: Apart(PolicyAll(capacity, ids[..n], present[..n]), 2 * capacity)
    ensures Indexed(states[|ids|]) && Ids(states[|ids|].order) == PolicyAll(capacity, ids, present)
  {
    hide WellKept, Got, Indexed, Policy, Fits, Ids, Apart;
    if ids == [] {
      EmptyKept(capacity);
    } else {
      var n := |ids| - 1;
      RunPrefix(states, capacity, ids, present, entries);
      LastGet(states, capacity, ids, present, entries);
      forall i | 0 <= i <= n ensures Apart(PolicyAll(capacity, ids[..n][..i], present[..n][..i]), 2 * capacity) {
        assert ids[..n][..i] == ids[..i] && present[..n][..i] == present[..i];
      }
      RunIsLRU(states[..n + 1], capacity, ids[..n], present[..n], entries[..n]);
      var s := states[n];
      assert s == states[..n + 1][n];
      BucketsExist(s, capacity);
      IndexedGetIsLRU(s, capacity, ids[n], present[n], entries[n]);
      assert ids[..|ids|] == ids && present[..|ids|] == present;
      GotIndexedIff(s, capacity, ids[n], present[n], entries[n]);
    }
  }

  // ---------- Two ids in one bucket ----------

  /** A get of an id the bucket's chain does not reach, in a cache with room, adds an entry. */
  lemma MissAdds(s: Cache, capacity: nat, entry: PageRef)
    requires |s.order| < capacity && |s.buckets| > 0 && HitAt(s, entry.pageId) == |s.order|
    ensures Got(s, capacity, entry.pageId, true, entry)
         == Cache([entry] + s.order, s.buckets[entry.pageId % |s.buckets| := entry])
  {
  }

  /** The chain of a bucket that points to the end of the list reaches only the end. */
  lemma ChainFromEnd(order: seq<PageRef>, buckets: seq<PageRef?>, id: nat)
    requires |buckets| > 0 && order != [] && NoDuplicates(order)
    requires buckets[id % |buckets|] == order[|order| - 1] && order[|order| - 1].pageId != id
    ensures HitAt(Cache(order, buckets), id) == |order|
  {
    var n := |order|;
    assert IndexOfRef(order, order[n - 1]) == n - 1 by { assert order[IndexOfRef(order, order[n - 1])] == order[n - 1]; }
    assert PositionFrom(order, n - 1, id) == PositionFrom(order, n, id) == n;
  }

  /** Getting a then b of one bucket leaves a behind b; getting a again swaps them, out of the bucket's reach. */
  lemma SwappedPair(b: PageRef, a: PageRef, buckets: seq<PageRef?>, capacity: nat, entry: PageRef)
    requires a != b && a.pageId != b.pageId && capacity > 0 && |buckets| > 0 && buckets[a.pageId % |buckets|] == b
    ensures Got(Cache([b, a], buckets), capacity, a.pageId, true, entry) == Cache([a, b], buckets)
  {
    assert IndexOfRef([b, a], b) == 0;
    assert PositionFrom([b, a], 0, a.pageId) == PositionFrom([b, a], 1, a.pageId) == 1;
    assert [a] + Without([b, a], 1) == [a, b];
  }

  /** Two ids that share a bucket: getting a, b, a, a caches a twice. */
  lemma CollisionDuplicates(capacity: nat, a: PageRef, b: PageRef, a': PageRef, a'': PageRef)
    requires capacity >= 3 && NoDuplicates([a, b, a', a''])
    requires a.pageId == a'.pageId == a''.pageId != b.pageId
    requires a.pageId % (2 * capacity) == b.pageId % (2 * capacity)
    ensures var s0 := Cache([], seq(2 * capacity, _ => null));
      var s1 := Got(s0, capacity, a.pageId, true, a);
      var s2 := Got(s1, capacity, b.pageId, true, b);
      var s3 := Got(s2, capacity, a.pageId, true, a');
      var s4 := Got(s3, capacity, a.pageId, true, a'');
      s4.order == [a'', a, b] && Ids(s4.order) == [a.pageId, a.pageId, b.pageId]
  {
    assert a != b by { assert [a, b, a', a''][0] != [a, b, a', a''][1]; }
    var empty: seq<PageRef?> := seq(2 * capacity, _ => null);
    var i := a.pageId % (2 * capacity);
    var one, two := empty[i := a], empty[i := a][i := b];
    assert HitAt(Cache([], empty), a.pageId) == 0;
    MissAdds(Cache([], empty), capacity, a);
    assert [a] + [] == [a];
    ChainFromEnd([a], one, b.pageId);
    MissAdds(Cache([a], one), capacity, b);
    assert [b] + [a] == [b, a];
    SwappedPair(b, a, two, capacity, a');
    ChainFromEnd([a, b], two, a.pageId);
    MissAdds(Cache([a, b], two), capacity, a'');
    assert [a''] + [a, b] == [a'', a, b];
  }

  // ---------- Pinned pages ----------

  /** The eviction loop's variables. */
  datatype Loop = Loop(state: Cache, evicted: nat)

  predicate Done(l: Loop, n: nat) { l.evicted >= n || l.state.order == [] }

  /** One iteration: a pinned tail starts it over with nothing changed. */
  ghost function LoopStep(l: Loop, pinned: set<PageRef>, n: nat): (r: Loop)
    requires |l.state.buckets| > 0
    ensures |r.state.buckets| == |l.state.buckets|
  {
    if Done(l, n) || l.state.order[|l.state.order| - 1] in pinned then l
    else Loop(Evicted(l.state), l.evicted + 1)
  }

  ghost function LoopSteps(l: Loop, pinned: set<PageRef>, n: nat, k: nat): Loop
    requires |l.state.buckets| > 0
    decreases k
  {
    if k == 0 then l else LoopSteps(LoopStep(l, pinned, n), pinned, n, k - 1)
  }

  /** None of the entries the loop has yet to evict is pinned. */
  ghost predicate Unblocked(l: Loop, pinned: set<PageRef>, n: nat) {
    forall i | 0 <= i < |l.state.order| && i + n >= |l.state.order| + l.evicted && l.evicted < n ::
      l.state.order[i] !in pinned
  }

  lemma {:induction false} EvictedFirst(s: Cache, m: nat)
    requires m < |s.order| && |s.buckets| > 0
    ensures |Evicted(s).order| == |s.order| - 1 && |Evicted(s).buckets| == |s.buckets|
    ensures EvictedTimes(Evicted(s), m) == EvictedTimes(s, m + 1)
  {
    hide Evicted;
    EvictedCount(s);
    if m > 0 { EvictedFirst(s, m - 1); }
  }

  /** With nothing pinned in the way the loop ends, having dropped the least recent entries. */
  lemma {:induction false} UnblockedEnds(l: Loop, pinned: set<PageRef>, n: nat) returns (k: nat)
    requires |l.state.buckets| > 0 && Unblocked(l, pinned, n)
    ensures Done(LoopSteps(l, pinned, n, k), n)
    ensures var m := if l.evicted >= n then 0 else if n - l.evicted < |l.state.order| then n - l.evicted else |l.state.order|;
      LoopSteps(l, pinned, n, k) == Loop(EvictedTimes(l.state, m), l.evicted + m)
    decreases |l.state.order|
  {
    hide Evicted;
    if Done(l, n) {
      k := 0;
    } else {
      var s := l.state;
      EvictedCount(s);
      assert s.order[|s.order| - 1] !in pinned;
      var next := LoopStep(l, pinned, n);
      assert next == Loop(Evicted(s), l.evicted + 1);
      var j := UnblockedEnds(next, pinned, n);
      k := j + 1;
      var m := if n - l.evicted < |s.order| then n - l.evicted else |s.order|;
      EvictedFirst(s, m - 1);
    }
  }

  /** With a pinned entry in the way no number of iterations is enough. */
  lemma {:induction false} BlockedNeverEnds(l: Loop, pinned: set<PageRef>, n: nat, k: nat)
    requires |l.state.buckets| > 0 && !Unblocked(l, pinned, n)
    ensures !Done(LoopSteps(l, pinned, n, k), n)
    decreases k
  {
    hide Evicted;
    if k > 0 {
      var s, next := l.state, LoopStep(l, pinned, n);
      if next != l {
        EvictedCount(s);
        var i :| 0 <= i < |s.order| && i + n >= |s.order| + l.evicted && l.evicted < n && s.order[i] in pinned;
        assert next.state.order[i] in pinned;
      }
      BlockedNeverEnds(next, pinned, n, k - 1);
    }
  }

  /** Some number of iterations ends the loop exactly when none of the entries it has to evict is pinned. */
  lemma EvictionEndsIff(l: Loop, pinned: set<PageRef>, n: nat)
    requires |l.state.buckets| > 0
    ensures (exists k: nat :: Done(LoopSteps(l, pinned, n, k), n)) <==> Unblocked(l, pinned, n)
  {
    hide Unblocked, LoopSteps, Done;
    if Unblocked(l, pinned, n) {
      var k := UnblockedEnds(l, pinned, n);
    } else {
      forall k: nat ensures !Done(LoopSteps(l, pinned, n, k), n) { BlockedNeverEnds(l, pinned, n, k); }
    }
  }
}
