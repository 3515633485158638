// The LRU page cache of src/page.c: a doubly linked list and a bucket array, proved against CacheSpec.
module PageCaches {
  import opened Seqs
  import opened CacheSpec
  import opened Pages

  function NextAt(s: seq<PageRef>, i: nat): PageRef?
    requires i < |s|
  {
    if i + 1 < |s| then s[i + 1] else null
  }

  function PrevAt(s: seq<PageRef>, i: nat): PageRef?
    requires i < |s|
  {
    if i > 0 then s[i - 1] else null
  }

  function First(s: seq<PageRef>): PageRef? { if s == [] then null else s[0] }

  function Last(s: seq<PageRef>): PageRef? { if s == [] then null else s[|s| - 1] }

  /** order is the chain of next and prev links. */
  ghost predicate Chained(order: seq<PageRef>)
    reads order
  {
    && NoDuplicates(order)
    && forall i | 0 <= i < |order| :: order[i].next == NextAt(order, i) && order[i].prev == PrevAt(order, i)
  }

  /** The links of one entry, and that neighbours are other entries. */
  lemma LinksAt(order: seq<PageRef>, k: nat)
    requires Chained(order) && k < |order|
    ensures order[k].next == NextAt(order, k) && order[k].prev == PrevAt(order, k)
    ensures NextAt(order, k) != order[k] && PrevAt(order, k) != order[k]
    ensures NextAt(order, k) == null || NextAt(order, k) in order
    ensures PrevAt(order, k) == null || PrevAt(order, k) in order
  {
  }

  /** How the neighbours in the list without position k follow from those in the list. */
  lemma NeighboursWithout(order: seq<PageRef>, k: nat, i: nat)
    requires k < |order| && i < |order| && i != k
    ensures var j := if i < k then i else i - 1;
      var w := Without(order, k);
      && j < |w| && w[j] == order[i]
      && NextAt(w, j) == (if i + 1 == k then NextAt(order, k) else NextAt(order, i))
      && PrevAt(w, j) == (if i == k + 1 then PrevAt(order, k) else PrevAt(order, i))
  {
  }

  /** Which entries have position k as a neighbour, and where it is an end of the list. */
  lemma NeighboursOnly(order: seq<PageRef>, k: nat, i: nat)
    requires NoDuplicates(order) && k < |order| && i < |order|
    ensures order[i] == PrevAt(order, k) <==> i + 1 == k
    ensures order[i] == NextAt(order, k) <==> i == k + 1
    ensures order[i] == order[k] <==> i == k
  {
  }

  lemma EndsWithout(order: seq<PageRef>, k: nat)
    requires NoDuplicates(order) && k < |order|
    ensures First(Without(order, k)) == if order[k] == First(order) then NextAt(order, k) else First(order)
    ensures Last(Without(order, k)) == if order[k] == Last(order) then PrevAt(order, k) else Last(order)
  {
  }

  lemma PushedLinks(order: seq<PageRef>, ref: PageRef)
    requires NoDuplicates(order) && ref !in order
    ensures NoDuplicates([ref] + order)
    ensures NextAt([ref] + order, 0) == First(order) && PrevAt([ref] + order, 0) == null
  {
  }

  lemma PushedLinksAt(order: seq<PageRef>, ref: PageRef, i: nat)
    requires 0 < i <= |order| && NoDuplicates(order)
    ensures NextAt([ref] + order, i) == NextAt(order, i - 1)
    ensures PrevAt([ref] + order, i) == if order[i - 1] == First(order) then ref else PrevAt(order, i - 1)
  {
  }

  lemma LastOf(order: seq<PageRef>)
    requires Chained(order) && order != []
    ensures Last(order) == order[|order| - 1] && order[|order| - 1].next == null
  {
  }

  lemma NextIs(order: seq<PageRef>, k: nat)
    requires 0 < k <= |order|
    ensures NextAt(order, k - 1) == if k < |order| then order[k] else null
  {
  }

  lemma WithoutLast(order: seq<PageRef>)
    requires Chained(order) && order != []
    ensures Without(order, |order| - 1) == order[..|order| - 1] && order[|order| - 1] !in order[..|order| - 1]
  {
  }

  /** A bucket is empty, points to the tail, or points into the rest of the list. */
  lemma BucketLeft(s: Cache, capacity: nat, b: nat)
    requires WellKept(s, capacity) && b < |s.buckets| && s.order != []
    ensures var n, r := |s.order| - 1, s.buckets[b];
      r == null || r == s.order[n] || r in s.order[..n]
  {
    var n, r := |s.order| - 1, s.buckets[b];
    if r != null && r != s.order[n] {
      var i :| 0 <= i < |s.order| && s.order[i] == r;
      assert s.order[..n][i] == r;
    }
  }

  lemma BucketInside(s: Cache, capacity: nat, b: nat)
    requires WellKept(s, capacity) && b < |s.buckets|
    ensures var k := IndexOfRef(s.order, s.buckets[b]);
      s.buckets[b] == if k < |s.order| then s.order[k] else null
  {
  }

  lemma MovedCount(order: seq<PageRef>, k: nat)
    requires k < |order|
    ensures |[order[k]] + Without(order, k)| == |order|
  {
  }

  lemma WithoutOne(order: seq<PageRef>, k: nat)
    requires Chained(order) && k < |order|
    ensures order[k] !in Without(order, k) && forall r | r in Without(order, k) :: r in order
  {
  }

  lemma HeadAgain(order: seq<PageRef>, k: nat)
    requires Chained(order) && k < |order| && order[k] == First(order)
    ensures [order[k]] + Without(order, k) == order
  {
  }

  lemma RelinkedChain(order: seq<PageRef>, k: nat)
    requires NoDuplicates(order) && k < |order|
    requires forall i | 0 <= i < |order| && i != k ::
      && order[i].next == (if i + 1 == k then NextAt(order, k) else NextAt(order, i))
      && order[i].prev == (if i == k + 1 then PrevAt(order, k) else PrevAt(order, i))
    ensures Chained(Without(order, k))
  {
    hide NextAt, PrevAt;
    var w := Without(order, k);
    forall j | 0 <= j < |w| ensures w[j].next == NextAt(w, j) && w[j].prev == PrevAt(w, j) {
      NeighboursWithout(order, k, if j < k then j else j + 1);
    }
  }

  class PageCache {
    const pool: PagePool
    const capacity: nat
    const hashTable: array<PageRef?>
    var head: PageRef?
    var tail: PageRef?
    var count: nat
    ghost var order: seq<PageRef>   // the list, most recent first

    ghost function State(): Cache
      reads this`order, hashTable
    {
      Cache(order, hashTable[..])
    }

    /** head and tail are the ends of the list. */
    ghost predicate EndsAt(order: seq<PageRef>)
      reads this`head, this`tail
    {
      head == First(order) && tail == Last(order)
    }

    ghost predicate Valid()
      reads this, hashTable, order
    {
      && Chained(order) && EndsAt(order)
      && count == |order|
      && WellKept(State(), capacity)
    }

    /** The page ref names is in the pool and pinned. */
    ghost predicate Pinned(ref: PageRef)
      reads pool, pool.pages
    {
      0 < ref.pageId <= |pool.pages| && pool.pages[ref.pageId - 1].pinned
    }

    constructor (pool: PagePool, capacity: nat)
      ensures Valid() && order == [] && this.pool == pool
      ensures this.capacity == if capacity > 0 then capacity else 64
      ensures fresh(hashTable) && hashTable[..] == seq(2 * this.capacity, _ => null)
    {
      this.pool := pool;
      var cap := if capacity > 0 then capacity else 64;
      this.capacity := cap;
      hashTable := new PageRef?[2 * cap](_ => null);
      head, tail, count, order := null, null, 0, [];
    }

    /** Takes ref, at position k, out of the list. */
    method Unlink(ref: PageRef, ghost k: nat)
      requires Chained(order) && k < |order| && order[k] == ref && EndsAt(order)
      modifies this`head, this`tail, this`order, order
      ensures order == Without(old(order), k) && Chained(order) && EndsAt(order) && ref.next == old(ref.next)
    {
      hide NextAt, PrevAt, First, Last, NoDuplicates, Without;
      LinksAt(order, k);
      EndsWithout(order, k);
      ghost var before := order;
      if ref.prev != null { ref.prev.next := ref.next; }
      if ref.next != null { ref.next.prev := ref.prev; }
      if ref == head { head := ref.next; }
      if ref == tail { tail := ref.prev; }
      order := Without(order, k);
      forall i | 0 <= i < |before| && i != k
        ensures before[i].next == (if i + 1 == k then NextAt(before, k) else NextAt(before, i))
        ensures before[i].prev == (if i == k + 1 then PrevAt(before, k) else PrevAt(before, i))
      {
        NeighboursOnly(before, k, i);
        assert old(before[i].next) == NextAt(before, i) && old(before[i].prev) == PrevAt(before, i);
      }
      RelinkedChain(before, k);
    }

    /** Puts ref, which is not in the list, at its front. */
    method PushFront(ref: PageRef)
      requires Chained(order) && EndsAt(order) && ref !in order
      modifies this`head, this`tail, this`order, order, ref
      ensures order == [ref] + old(order) && Chained(order) && EndsAt(order)
    {
      hide NextAt, PrevAt, NoDuplicates;
      ghost var before := order;
      PushedLinks(before, ref);
      ref.prev := null;
      ref.next := head;
      if head != null { head.prev := ref; }
      head := ref;
      if tail == null { tail := ref; }
      order := [ref] + order;
      forall i | 0 <= i < |order| ensures order[i].next == NextAt(order, i) && order[i].prev == PrevAt(order, i) {
        if i > 0 {
          assert order[i] == before[i - 1];
          assert old(before[i - 1].next) == NextAt(before, i - 1) && old(before[i - 1].prev) == PrevAt(before, i - 1);
          PushedLinksAt(before, ref, i);
        }
      }
    }

    /** Takes victim, already off the list, out of its bucket. */
    method ClearBucket(victim: PageRef)
      requires Chained(order) && victim !in order && victim.next == null && hashTable.Length > 0
      requires var r := hashTable[victim.pageId % hashTable.Length]; r == null || r == victim || r in order
      modifies hashTable
      ensures var b := victim.pageId % hashTable.Length;
        hashTable[..] == if old(hashTable[b]) == victim then old(hashTable[..])[b := null] else old(hashTable[..])
    {
      hide NextAt, PrevAt;
      var idx := victim.pageId % hashTable.Length;
      if hashTable[idx] == victim {
        hashTable[idx] := victim.next;
        return;
      }
      // The chain runs along the list, where the victim no longer is.
      var ref := hashTable[idx];
      ghost var k := IndexOfRef(order, ref);
      while ref != null
        invariant k <= |order| && ref == if k < |order| then order[k] else null
        invariant hashTable[..] == old(hashTable[..])
        decreases |order| - k
      {
        LinksAt(order, k);
        assert ref.next != victim;
        ref := ref.next;
        k := k + 1;
        NextIs(order, k);
      }
    }

    /** Drops the least recent entry, and its bucket if the bucket points to it. */
    method EvictOne()
      requires Valid() && pool.Numbered() && order != [] && !Pinned(order[|order| - 1])
      modifies this`head, this`tail, this`count, this`order, hashTable, order
      ensures Valid() && State() == Evicted(old(State()))
    {
      hide WellKept, Chained, First, Last, NoDuplicates, Without;
      ghost var s := State();
      EvictedKeeps(s, capacity);
      BucketsExist(s, capacity);
      LastOf(order);
      var victim := tail;
      BucketLeft(s, capacity, victim.pageId % |s.buckets|);
      WithoutLast(s.order);
      var page := pool.Get(victim.pageId);
      assert page == null || !page.pinned;
      Unlink(victim, |order| - 1);
      ClearBucket(victim);
      count := count - 1;
    }

    ghost function PinnedRefs(): set<PageRef>
      reads this`order, pool, pool.pages
    {
      set r | r in order && Pinned(r)
    }

    /** The eviction loop ends exactly when none of the n least recent entries is pinned: what Evict requires. */
    lemma EvictEndsIff(n: nat)
      requires Valid()
      ensures (forall i | 0 <= i < |order| && i + n >= |order| :: !Pinned(order[i]))
         <==> exists k: nat :: Done(LoopSteps(Loop(State(), 0), PinnedRefs(), n, k), n)
    {
      hide WellKept, LoopSteps, Done, Pinned;
      BucketsExist(State(), capacity);
      EvictionEndsIff(Loop(State(), 0), PinnedRefs(), n);
      forall i | 0 <= i < |order| ensures order[i] in PinnedRefs() <==> Pinned(order[i]) {
      }
    }

    /** Drops the n least recent entries. */
    method Evict(n: nat)
      requires Valid() && pool.Numbered()
      requires forall i | 0 <= i < |order| && i + n >= |order| :: !Pinned(order[i])
      modifies this`head, this`tail, this`count, this`order, hashTable, order
      ensures Valid()
      ensures State() == EvictedTimes(old(State()), if n < |old(order)| then n else |old(order)|)
    {
      hide Chained, WellKept, First, Evicted;
      BucketsExist(State(), capacity);
      var evicted := 0;
      while evicted < n && tail != null
        invariant Valid() && evicted <= n && evicted + |order| == |old(order)|
        invariant order == old(order)[..|order|]
        invariant State() == EvictedTimes(old(State()), evicted)
      {
        EvictedCount(State());
        EvictOne();
        evicted := evicted + 1;
      }
    }

    /** Follows the bucket's chain to the reference for pageId, or to its end. */
    method Lookup(pageId: nat) returns (ref: PageRef?, ghost k: nat)
      requires Valid()
      ensures hashTable.Length > 0 && k == HitAt(State(), pageId)
      ensures ref == if HitAt(State(), pageId) < |order| then order[HitAt(State(), pageId)] else null
    {
      hide WellKept, NextAt, PrevAt, First, Last, NoDuplicates;
      BucketsExist(State(), capacity);
      var idx := pageId % hashTable.Length;
      ref := hashTable[idx];
      k := IndexOfRef(order, ref);
      BucketInside(State(), capacity, idx);
      while ref != null
        invariant k <= |order| && ref == if k < |order| then order[k] else null
        invariant PositionFrom(order, k, pageId) == HitAt(State(), pageId)
        decreases |order| - k
      {
        if ref.pageId == pageId { return; }
        LinksAt(order, k);
        ref := ref.next;
        k := k + 1;
        NextIs(order, k);
      }
    }

    /** Marks position k as the most recent. */
    method Touch(ref: PageRef, ghost k: nat)
      requires Valid() && k < |order| && order[k] == ref
      modifies this`head, this`tail, this`order, order
      ensures Valid() && State() == old(State()).(order := [ref] + Without(old(order), k))
    {
      hide WellKept, Chained, Last, NoDuplicates, Without;
      MovedToFrontKeeps(State(), capacity, k);
      MovedCount(order, k);
      assert ref in order;
      if ref != head {
        WithoutOne(order, k);
        ghost var before := order;
        Unlink(ref, k);
        assert forall i | 0 <= i < |order| :: order[i] in before;
        PushFront(ref);
      } else {
        HeadAgain(order, k);
      }
    }

    /** Adds a reference for pageId, which the chain of its bucket does not reach, as the most recent. */
    method Add(pageId: nat)
      requires Valid() && |order| < capacity
      modifies this`head, this`tail, this`count, this`order, hashTable, order
      ensures Valid() && order != [] && fresh(order[0]) && order[0].pageId == pageId
      ensures hashTable.Length > 0
      ensures State() == Cache([order[0]] + old(order), old(hashTable[..])[pageId % hashTable.Length := order[0]])
    {
      hide WellKept, Chained, First, Last, NoDuplicates;
      ghost var s := State();
      BucketsExist(s, capacity);
      var idx := pageId % hashTable.Length;
      var ref := new PageRef(pageId);
      AddedKeeps(s, capacity, ref);
      ref.next := hashTable[idx];
      hashTable[idx] := ref;
      PushFront(ref);
      count := count + 1;
    }

    /** Whether getting pageId has to evict: it is not found, the pool has it, and the cache is full. */
    ghost predicate MustEvict(pageId: nat)
      requires Valid()
      reads this, order, hashTable, pool`pages
    {
      HitAt(State(), pageId) == |order| && 0 < pageId <= |pool.pages| && |order| >= capacity
    }

    /** Whether getting pageId would not end: it has to evict, and the least recent page is pinned. */
    ghost predicate Blocked(pageId: nat)
      requires Valid()
      reads this, order, hashTable, pool, pool.pages
    {
      MustEvict(pageId) && order != [] && Pinned(order[|order| - 1])
    }

    /** Finds out, for a caller that wants to know beforehand. */
    method IsBlocked(pageId: nat) returns (blocked: bool)
      requires Valid() && pool.Numbered()
      ensures blocked == Blocked(pageId)
    {
      hide WellKept, Chained, NoDuplicates, HitAt;
      var ref, _ := Lookup(pageId);
      if ref != null || count < capacity || tail == null { return false; }
      var page := pool.Get(pageId);
      if page == null { return false; }
      var least := pool.Get(tail.pageId);
      return least != null && least.pinned;
    }

    /** The page with this id by way of the cache: the answer of the pool, and one step of the cache. */
    method Get(pageId: nat) returns (page: Page?)
      requires Valid() && pool.Numbered()
      requires !Blocked(pageId)
      modifies this`head, this`tail, this`count, this`order, hashTable, order
      ensures Valid()
      ensures page == if 0 < pageId <= |pool.pages| then pool.pages[pageId - 1] else null
      ensures page != null && old(HitAt(State(), pageId) == |order|) ==>
        order != [] && fresh(order[0]) && order[0].pageId == pageId
      ensures State() == Got(old(State()), capacity, pageId, page != null, First(order))
      ensures forall r | r in order && r !in old(order) :: fresh(r)
    {
      hide WellKept, Chained, Last, NoDuplicates, Evicted, HitAt, NextAt;
      BucketsExist(State(), capacity);
      var ref, k := Lookup(pageId);
      if ref != null {
        Touch(ref, k);
        page := pool.Get(pageId);
        return;
      }
      page := pool.Get(pageId);
      if page == null { return; }
      if count >= capacity {
        EvictedCount(State());
        Evict(1);
      }
      Add(pageId);
    }
  }

  /** Gets on a new cache, up to the first that would not end: the pool's answers, and the cache's states. */
  method GetAll(pool: PagePool, capacity: nat, ids: seq<nat>)
    returns (cache: PageCache, pages: seq<Page?>, ghost states: seq<Cache>, ghost present: seq<bool>, ghost entries: seq<PageRef?>)
    requires pool.Numbered()
    ensures fresh(cache) && cache.Valid() && cache.pool == pool && |pages| <= |ids|
    ensures |pages| < |ids| ==> cache.Blocked(ids[|pages|])
    ensures forall i | 0 <= i < |pages| ::
      pages[i] == if 0 < ids[i] <= |pool.pages| then pool.pages[ids[i] - 1] else null
    ensures Run(states, cache.capacity, ids[..|pages|], present, entries) && states[|pages|] == cache.State()
    ensures forall i | 0 <= i < |pages| :: present[i] == (pages[i] != null)
  {
    hide WellKept, Chained, Last, Got, Fits, HitAt, Run, PageCache.Pinned, PageCache.Blocked;
    EmptyRun(if capacity > 0 then capacity else 64);
    cache := new PageCache(pool, capacity);
    pages, states, present, entries := [], [cache.State()], [], [];
    for i := 0 to |ids|
      invariant fresh(cache) && fresh(cache.hashTable) && (forall k | 0 <= k < |cache.order| :: fresh(cache.order[k]))
      invariant cache.Valid() && cache.pool == pool && cache.capacity > 0
      invariant |pages| == i && forall j | 0 <= j < i ::
        pages[j] == if 0 < ids[j] <= |pool.pages| then pool.pages[ids[j] - 1] else null
      invariant Run(states, cache.capacity, ids[..i], present, entries)
      invariant |states| == i + 1 && |present| == i && states[i] == cache.State()
      invariant forall j | 0 <= j < i :: present[j] == (pages[j] != null)
    {
      RunEnds(states, cache.capacity, ids[..i], present, entries);
      var blocked := cache.IsBlocked(ids[i]);
      if blocked { return; }
      ghost var before := cache.State();
      BucketsExist(before, cache.capacity);
      var page := cache.Get(ids[i]);
      forall k | 0 <= k < |cache.order| ensures fresh(cache.order[k]) {
        assert cache.order[k] in cache.order;
        if cache.order[k] in before.order {
          var j :| 0 <= j < |before.order| && before.order[j] == cache.order[k];
        }
      }
      NewEntryFits(before, ids[i], page != null, First(cache.order));
      RunGrows(states, cache.capacity, ids[..i], present, entries, ids[i], page != null, First(cache.order));
      assert ids[..i + 1] == ids[..i] + [ids[i]];
      states, present, entries := states + [cache.State()], present + [page != null], entries + [First(cache.order)];
      pages := pages + [page];
    }
    assert ids[..|ids|] == ids;
  }

  lemma EmptyRun(capacity: nat)
    requires capacity > 0
    ensures Run([Cache([], seq(2 * capacity, _ => null))], capacity, [], [], [])
  {
  }

  lemma RunEnds(states: seq<Cache>, capacity: nat, ids: seq<nat>, present: seq<bool>, entries: seq<PageRef?>)
    requires Run(states, capacity, ids, present, entries)
    ensures |states| == |ids| + 1 && |present| == |entries| == |ids|
  {
  }

  lemma NewEntryFits(s: Cache, id: nat, present: bool, entry: PageRef?)
    requires |s.buckets| > 0
    requires present && HitAt(s, id) == |s.order| ==> entry != null && entry.pageId == id && entry !in s.order
    ensures Fits(s, id, present, entry)
  {
  }

  /** One get more makes a longer run. */
  lemma RunGrows(states: seq<Cache>, capacity: nat, ids: seq<nat>, present: seq<bool>, entries: seq<PageRef?>,
                 id: nat, here: bool, entry: PageRef?)
    requires Run(states, capacity, ids, present, entries)
    requires var s := states[|ids|]; |s.buckets| > 0 && Fits(s, id, here, entry)
    ensures Run(states + [Got(states[|ids|], capacity, id, here, entry)], capacity, ids + [id], present + [here], entries + [entry])
  {
    hide Got, Fits;
  }
}
