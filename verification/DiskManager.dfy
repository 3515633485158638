// Page allocation of src/disk_manager.c: which track a page goes to, and the tree of page centroids.
module DiskManagers {
  import opened Geometry
  import opened Seqs
  import opened KDSpec
  import opened KDTrees
  import opened Pages
  import opened SpatialObjects

  datatype Strategy = NearestTrack | NewTrack | BestFit | Sequential

  /** One entry for every non-empty page, at its current centroid. */
  ghost function Listing(ps: seq<Page>): seq<Entry<Page>>
    reads ps`objects, ps`centroid
  {
    if ps == [] then []
    else
      var n := |ps| - 1;
      Listing(ps[..n]) + if ps[n].objects != [] then [Entry(ps[n].centroid, ps[n].pageId, ps[n])] else []
  }

  lemma ListingNext(ps: seq<Page>, i: nat)
    requires i < |ps|
    ensures Listing(ps[..i + 1])
         == Listing(ps[..i]) + if ps[i].objects != [] then [Entry(ps[i].centroid, ps[i].pageId, ps[i])] else []
  {
    assert ps[..i + 1][..i] == ps[..i];
  }

  lemma ListingNone()
    ensures Listing([]) == []
  {
  }

  /** What the listing holds. */
  lemma {:induction false} ListingMembers(ps: seq<Page>, e: Entry<Page>)
    ensures e in Listing(ps) <==> e.data in ps && e.data.objects != [] && e == Entry(e.data.centroid, e.data.pageId, e.data)
  {
    if ps != [] {
      var n := |ps| - 1;
      ListingMembers(ps[..n], e);
      assert ps == ps[..n] + [ps[n]];
    }
  }

  lemma BagGrows<D>(a: seq<Entry<D>>, s: seq<Entry<D>>, x: Entry<D>)
    requires BagOf(a) == BagOf(s)
    ensures BagOf(a + [x]) == BagOf(s + [x])
  {
  }

  /** By how much the rectangle of a track has to grow to take in c. */
  function Expansion(extent: MBR, c: Point): real {
    Area(ExpandPoint(extent, c)) - Area(extent)
  }

  /** The area by which a rectangle that is not empty grows when it takes in c. */
  function Growth(e: MBR, c: Point): real {
    (Max(e.maxX, c.x) - Min(e.minX, c.x)) * (Max(e.maxY, c.y) - Min(e.minY, c.y))
    - (e.maxX - e.minX) * (e.maxY - e.minY)
  }

  lemma NonNegativeProduct(a: real, b: real)
    requires a >= 0.0 && b >= 0.0
    ensures a * b >= 0.0
  {
  }

  lemma ProductGrows(a: real, b: real, c: real, d: real)
    requires 0.0 <= a <= c && 0.0 <= b <= d
    ensures a * b <= c * d
  {
    NonNegativeProduct(c - a, d);
    NonNegativeProduct(a, d - b);
    assert (c - a) * d == c * d - a * d;
    assert a * (d - b) == a * d - a * b;
  }

  /** It is what the code compares, is never negative, and is nothing for a point inside; nor does a track
      without extent grow by taking in its first point. */
  lemma ExpansionIsGrowth(e: MBR, c: Point)
    requires Finite(c) && ((e.minX <= e.maxX && e.minY <= e.maxY) || e == EMPTY_MBR)
    ensures Expansion(e, c) == if e == EMPTY_MBR then 0.0 else Growth(e, c)
    ensures Expansion(e, c) >= 0.0
    ensures e.minX <= c.x <= e.maxX && e.minY <= c.y <= e.maxY ==> Expansion(e, c) == 0.0
  {
    if e != EMPTY_MBR {
      ProductGrows(e.maxX - e.minX, e.maxY - e.minY,
                   Max(e.maxX, c.x) - Min(e.minX, c.x), Max(e.maxY, c.y) - Min(e.minY, c.y));
    } else {
      assert ExpandPoint(e, c) == PointMBR(c);
    }
  }

  /** What is known of the best fit: its own extent and that of another track with room. */
  lemma BestFitAgainst(disk: DiskManager, best: DiskTrack?, c: Point, i: nat)
    requires disk.strategy == BestFit && disk.Chosen(best, c)
    requires i < |disk.pool.tracks| && |disk.pool.tracks[i].pages| < 16
    ensures var cost := Expansion(disk.pool.tracks[i].extent, c);
      && (best == null ==> cost >= DBL_MAX)
      && (best != null ==> best in disk.pool.tracks && Expansion(best.extent, c) <= cost)
      && (best != null ==> exists k | 0 <= k < |disk.pool.tracks| ::
            disk.pool.tracks[k] == best && (i < k ==> Expansion(best.extent, c) < cost))
  {
    hide Expansion;
  }

  /** The best fit grows by no more area than any other track with room; a track that already covers the
      point is passed over only for one that does not grow either, ... */
  lemma BestFitGrowsMin(disk: DiskManager, best: DiskTrack?, c: Point, t: DiskTrack)
    requires disk.strategy == BestFit && disk.Chosen(best, c) && Finite(c)
    requires forall t | t in disk.pool.tracks :: t.extent == EMPTY_MBR || (t.extent.minX <= t.extent.maxX && t.extent.minY <= t.extent.maxY)
    requires t in disk.pool.tracks && |t.pages| < 16 && t.extent != EMPTY_MBR
    ensures best == null ==> Growth(t.extent, c) >= DBL_MAX
    ensures best != null && best.extent != EMPTY_MBR ==> 0.0 <= Growth(best.extent, c) <= Growth(t.extent, c)
    ensures t.extent.minX <= c.x <= t.extent.maxX && t.extent.minY <= c.y <= t.extent.maxY ==>
      best != null && (best.extent == EMPTY_MBR || Growth(best.extent, c) == 0.0)
  {
    hide Expansion, Growth, DiskManager.Chosen;
    var i :| 0 <= i < |disk.pool.tracks| && disk.pool.tracks[i] == t;
    BestFitAgainst(disk, best, c, i);
    ExpansionIsGrowth(t.extent, c);
    if best != null { ExpansionIsGrowth(best.extent, c); }
  }

  /** ... and among equals the first is taken. */
  lemma BestFitIsFirst(disk: DiskManager, best: DiskTrack, c: Point, i: nat) returns (k: nat)
    requires disk.strategy == BestFit && disk.Chosen(best, c) && Finite(c)
    requires i < |disk.pool.tracks| && |disk.pool.tracks[i].pages| < 16
    requires forall e | e == best.extent || e == disk.pool.tracks[i].extent :: e.minX <= e.maxX && e.minY <= e.maxY
    ensures k < |disk.pool.tracks| && disk.pool.tracks[k] == best
    ensures i < k ==> Growth(best.extent, c) < Growth(disk.pool.tracks[i].extent, c)
  {
    hide Expansion, Growth, DiskManager.Chosen;
    var e := disk.pool.tracks[i].extent;
    BestFitAgainst(disk, best, c, i);
    ExpansionIsGrowth(e, c);
    ExpansionIsGrowth(best.extent, c);
    k :| 0 <= k < |disk.pool.tracks| && disk.pool.tracks[k] == best && (i < k ==> Expansion(best.extent, c) < Expansion(e, c));
  }

  /** The nearest track is no farther, by its centroid, than any other track with room. */
  lemma NearestTrackIsNearest(disk: DiskManager, best: DiskTrack?, c: Point, i: nat)
    requires disk.strategy == NearestTrack && disk.Chosen(best, c)
    requires i < |disk.pool.tracks| && |disk.pool.tracks[i].pages| < 16
    ensures var t := disk.pool.tracks[i];
      && (best == null ==> disk.sqrt(DistSq(c, t.centroid)) >= DBL_MAX)
      && (best != null ==> disk.sqrt(DistSq(c, best.centroid)) <= disk.sqrt(DistSq(c, t.centroid)))
  {
    hide DistSq;
  }

  /** A track's pages, while a page is on its way into the track. */
  ghost predicate Holds(t: DiskTrack, held: seq<Page>, ps: seq<Page>)
    reads t, ps
  {
    t.Balanced() && t.held == held && forall p | p in held :: p in ps && p.trackId == t.trackId
  }

  lemma HoldsMeans(t: DiskTrack, held: seq<Page>, ps: seq<Page>)
    ensures Holds(t, held, ps) <==> t.Balanced() && t.held == held && forall p | p in held :: p in ps && p.trackId == t.trackId
  {
  }

  lemma PlacedKeepsDescribed(pool: PagePool, before: seq<Page>, page: Page)
    requires (forall p | p in before :: p.Consistent()) && page.objects == [] && page.extent == EMPTY_MBR
    requires pool.pages == before + [page]
    ensures pool.Described()
  {
  }

  lemma TrackAt(pool: PagePool, t: DiskTrack)
    requires pool.Valid() && t in pool.tracks
    ensures 0 < t.trackId <= |pool.tracks| && pool.tracks[t.trackId - 1] == t
  {
  }

  lemma DescribedAgain(pool: PagePool)
    requires forall p | p in pool.pages :: p.Consistent()
    ensures pool.Described()
  {
  }

  lemma DescribedPages(pool: PagePool)
    requires pool.Described()
    ensures forall p | p in pool.pages :: p.Consistent()
  {
  }

  /** Listing a new page in the track its header names keeps the pool's lists in order. */
  lemma PlacedKeepsListed(pool: PagePool, before: seq<Page>, helds: seq<seq<Page>>, page: Page, k: nat)
    requires pool.Numbered() && pool.pages == before + [page] && |helds| == |pool.tracks|
    requires k < |helds| && page.trackId == k + 1
    requires forall i | 0 <= i < |helds| && i != k :: Holds(pool.tracks[i], helds[i], before)
    requires Holds(pool.tracks[k], helds[k] + [page], before + [page])
    requires forall p | p in before :: 0 < p.trackId <= |helds| && p in helds[p.trackId - 1]
    ensures pool.Listed()
  {
    hide DiskTrack.Balanced;
    forall t | t in pool.tracks
      ensures t.Balanced() && forall p | p in t.held :: p in pool.pages && p.trackId == t.trackId
    {
      var i :| 0 <= i < |pool.tracks| && pool.tracks[i] == t;
      assert i != k ==> Holds(t, helds[i], before);
    }
    forall p | p in pool.pages
      ensures 0 < p.trackId <= |pool.tracks| && p in pool.tracks[p.trackId - 1].held
    {
      if p in before {
        var i := p.trackId - 1;
        assert i != k ==> Holds(pool.tracks[i], helds[i], before);
      }
    }
  }

  /** The tracks' pages, as PlacedKeepsListed wants them. */
  lemma ListedHolds(pool: PagePool) returns (helds: seq<seq<Page>>)
    requires pool.Listed() && pool.Numbered()
    ensures |helds| == |pool.tracks|
    ensures forall i | 0 <= i < |helds| :: Holds(pool.tracks[i], helds[i], pool.pages)
    ensures forall p | p in pool.pages :: 0 < p.trackId <= |helds| && p in helds[p.trackId - 1]
  {
    helds := seq(|pool.tracks|, i requires 0 <= i < |pool.tracks| reads pool, pool.tracks => pool.tracks[i].held);
  }

  class DiskManager {
    const pool: PagePool
    const strategy: Strategy
    const sqrt: real -> real
    var allocationTree: KDTree<Page>
    var bounds: MBR
    var pageCount: nat
    var trackCount: nat

    ghost predicate Valid()
      reads this, pool, pool.pages, pool.tracks, allocationTree, allocationTree.root, allocationTree.Nodes()
    {
      && pool.Valid()
      && allocationTree.Valid()
      && pageCount == |pool.pages| && trackCount == |pool.tracks|
    }

    /** The allocation tree holds exactly the non-empty pages at their current centroids. */
    ghost predicate TreeCurrent()
      reads this`allocationTree, pool`pages, pool.pages`objects, pool.pages`centroid
      reads allocationTree, allocationTree.root
    {
      BagOf(allocationTree.Stored()) == BagOf(Listing(pool.pages))
    }

    constructor (strategy: Strategy, sqrt: real -> real)
      ensures Valid() && TreeCurrent() && this.strategy == strategy && this.sqrt == sqrt
      ensures fresh(pool) && fresh(allocationTree) && fresh(allocationTree.Nodes())
      ensures pool.pages == [] && pool.tracks == []
    {
      pool := new PagePool();
      this.strategy, this.sqrt := strategy, sqrt;
      allocationTree := new KDTree<Page>();
      bounds, pageCount, trackCount := MBR(0.0, 0.0, 0.0, 0.0), 0, 0;
    }

    /** What a track costs under the two strategies that compare tracks. */
    function Cost(t: DiskTrack, c: Point): real
      reads t
    {
      if strategy == NearestTrack then sqrt(DistSq(c, t.centroid)) else Expansion(t.extent, c)
    }

    /** best is the first of the cheapest tracks with space among the first n, if any costs less than DBL_MAX. */
    ghost predicate Cheapest(best: DiskTrack?, c: Point, n: nat)
      requires n <= |pool.tracks|
      reads pool, pool.tracks, best
    {
      if best == null then
        forall i | 0 <= i < n :: pool.tracks[i].HasSpace() ==> Cost(pool.tracks[i], c) >= DBL_MAX
      else
        exists k | 0 <= k < n ::
          && pool.tracks[k] == best && best.HasSpace() && Cost(best, c) < DBL_MAX
          && (forall i | 0 <= i < k :: pool.tracks[i].HasSpace() ==> Cost(pool.tracks[i], c) > Cost(best, c))
          && (forall i | k <= i < n :: pool.tracks[i].HasSpace() ==> Cost(pool.tracks[i], c) >= Cost(best, c))
    }

    /** The track a page at c goes to, or null for a new track. */
    ghost predicate Chosen(best: DiskTrack?, c: Point)
      reads pool, pool.tracks, best
    {
      match strategy
      case NearestTrack => Cheapest(best, c, |pool.tracks|)
      case BestFit => Cheapest(best, c, |pool.tracks|)
      case Sequential =>
        var n := |pool.tracks|;
        best == if n > 0 && pool.tracks[n - 1].HasSpace() then pool.tracks[n - 1] else null
      case NewTrack => best == null
    }

    method FindBestTrack(c: Point) returns (best: DiskTrack?)
      ensures Chosen(best, c)
      ensures best != null ==> best in pool.tracks && best.HasSpace()
    {
      hide DistSq, Expansion;
      best := null;
      match strategy
      case NearestTrack =>
        var bestDist := DBL_MAX;
        for i := 0 to |pool.tracks|
          invariant Cheapest(best, c, i) && bestDist == if best == null then DBL_MAX else Cost(best, c)
        {
          var track := pool.tracks[i];
          if track.HasSpace() {
            var dist := sqrt(DistSq(c, track.centroid));
            if dist < bestDist { bestDist, best := dist, track; }
          }
        }
      case BestFit =>
        var bestExpansion := DBL_MAX;
        for i := 0 to |pool.tracks|
          invariant Cheapest(best, c, i) && bestExpansion == if best == null then DBL_MAX else Cost(best, c)
        {
          var track := pool.tracks[i];
          if track.HasSpace() {
            var expansion := Expansion(track.extent, c);
            if expansion < bestExpansion { bestExpansion, best := expansion, track; }
          }
        }
      case Sequential =>
        if |pool.tracks| > 0 {
          var last := pool.tracks[|pool.tracks| - 1];
          if last.HasSpace() { best := last; }
        }
      case NewTrack =>
    }

    method CreateTrack() returns (track: DiskTrack)
      requires pool.Valid() && trackCount == |pool.tracks|
      modifies this`trackCount, pool`tracks, pool`nextTrackId
      ensures pool.Valid() && trackCount == |pool.tracks|
      ensures fresh(track) && pool.tracks == old(pool.tracks) + [track]
      ensures track.pages == [] && track.held == [] && track.trackId == |pool.tracks|
    {
      hide PagePool.Valid;
      track := pool.CreateTrack();
      trackCount := trackCount + 1;
    }

    /** Adds a new empty page at c to a track with space, once in the pool and once here. */
    method ListTwice(track: DiskTrack, c: Point) returns (page: Page)
      requires pool.Numbered() && track in pool.tracks && track.Balanced() && track.HasSpace()
      modifies pool`pages, pool`nextPageId, track
      ensures pool.Numbered() && fresh(page) && pool.pages == old(pool.pages) + [page]
      ensures page.objects == [] && page.extent == EMPTY_MBR && page.centroid == c && !page.pinned
      ensures page.trackId == track.trackId && track.Balanced() && track.held == old(track.held) + [page]
    {
      hide Doubled, NoDuplicates, JointExtent;
      page := pool.Alloc(track.trackId);
      page.centroid := c;
      var _ := track.AddPage(page);
      track.Settle(page);
    }

    /** Adds a new empty page at c to a track with space, which comes to list it twice. */
    method PlacePage(track: DiskTrack, c: Point) returns (page: Page)
      requires pool.Valid() && track in pool.tracks && track.HasSpace()
      modifies pool`pages, pool`nextPageId, track
      ensures pool.Valid() && fresh(page) && pool.pages == old(pool.pages) + [page]
      ensures page.objects == [] && page.centroid == c && !page.pinned
      ensures page.trackId == track.trackId && track.held == old(track.held) + [page]
    {
      hide DiskTrack.Balanced, PagePool.Listed, PagePool.Described, Page.Consistent, Holds;
      ghost var before := pool.pages;
      ghost var helds := ListedHolds(pool);
      ghost var k := track.trackId - 1;
      HoldsMeans(track, helds[k], before);
      DescribedPages(pool);
      page := ListTwice(track, c);
      HoldsMeans(track, helds[k] + [page], before + [page]);
      PlacedKeepsDescribed(pool, before, page);
      PlacedKeepsListed(pool, before, helds, page, k);
    }

    /** Where a page allocated for c went: the end of the chosen track, or a new track. */
    twostate predicate Allocated(new page: Page, c: Point)
      reads pool, pool.tracks, page
    {
      && 0 < page.trackId <= |pool.tracks|
      && var t := pool.tracks[page.trackId - 1];
      && t.held != [] && t.held[|t.held| - 1] == page
      && if page.trackId <= old(|pool.tracks|)
         then pool.tracks == old(pool.tracks) && old(Chosen(t, c))
         else pool.tracks == old(pool.tracks) + [t] && fresh(t) && old(Chosen(null, c))
    }

    /** Pages and tracks that joined the pool are new. */
    twostate predicate Grown()
      reads pool
    {
      && (forall p | p in pool.pages :: p in old(pool.pages) || fresh(p))
      && (forall t | t in pool.tracks :: t in old(pool.tracks) || fresh(t))
    }

    /** Chooses or creates the track of a new empty page at c, and places the page there. */
    method NewPage(c: Point) returns (page: Page)
      requires pool.Valid() && trackCount == |pool.tracks|
      modifies this`trackCount, pool, pool.tracks
      ensures pool.Valid() && trackCount == |pool.tracks|
      ensures fresh(page) && pool.pages == old(pool.pages) + [page]
      ensures page.objects == [] && page.centroid == c && !page.pinned
      ensures Allocated(page, c) && Grown()
      ensures AllObjects(pool.pages) == old(AllObjects(pool.pages))
    {
      hide Chosen, PagePool.Valid, AllObjects;
      var track := FindBestTrack(c);
      if track == null || !track.HasSpace() {
        track := CreateTrack();
      }
      TrackAt(pool, track);
      ghost var pages := pool.pages;
      page := PlacePage(track, c);
      AllObjectsLast(pages, page);
    }

    /** Adds page, at its current centroid, to the allocation tree. */
    method UpdateAllocationTree(page: Page)
      requires allocationTree.Valid()
      modifies allocationTree, allocationTree.Nodes()
      ensures allocationTree.Valid() && fresh(allocationTree.Nodes() - old(allocationTree.Nodes()))
      ensures BagOf(allocationTree.Stored()) == BagOf(old(allocationTree.Stored()) + [Entry(page.centroid, page.pageId, page)])
    {
      hide KDTree.Valid, KDTree.Stored;
      allocationTree.Insert(page.centroid, page.pageId, page);
    }

    /** A new empty page at c, in the chosen track or in a new one, and in the allocation tree. */
    method AllocPage(c: Point) returns (page: Page)
      requires Valid()
      modifies this, pool, pool.tracks, allocationTree, allocationTree.Nodes()
      ensures Valid() && allocationTree == old(allocationTree) && bounds == ExpandPoint(old(bounds), c)
      ensures fresh(allocationTree.Nodes() - old(allocationTree.Nodes()))
      ensures fresh(page) && pool.pages == old(pool.pages) + [page]
      ensures page.objects == [] && page.centroid == c && !page.pinned
      ensures BagOf(allocationTree.Stored()) == BagOf(old(allocationTree.Stored()) + [Entry(c, page.pageId, page)])
      ensures Allocated(page, c) && Grown()
      ensures AllObjects(pool.pages) == old(AllObjects(pool.pages))
    {
      hide AllObjects, KDTree.Valid, Chosen, PagePool.Valid, KDTree.Stored, BagOf, ExpandPoint, Allocated, Grown;
      ghost var nodes := allocationTree.Nodes();
      page := NewPage(c);
      UpdateAllocationTree(page);
      bounds := ExpandPoint(bounds, c);
      pageCount := pageCount + 1;
    }

    /** Adds page to an allocation tree that lists listed, unless it is empty. */
    method ListPage(page: Page, ghost listed: seq<Entry<Page>>)
      requires allocationTree.Valid() && BagOf(allocationTree.Stored()) == BagOf(listed)
      modifies allocationTree, allocationTree.Nodes()
      ensures allocationTree.Valid() && fresh(allocationTree.Nodes() - old(allocationTree.Nodes()))
      ensures BagOf(allocationTree.Stored())
           == BagOf(listed + if page.objects != [] then [Entry(page.centroid, page.pageId, page)] else [])
    {
      hide KDTree.Valid, KDTree.Stored, BagOf;
      if |page.objects| > 0 {
        BagGrows(allocationTree.Stored(), listed, Entry(page.centroid, page.pageId, page));
        UpdateAllocationTree(page);
      } else {
        assert listed + [] == listed;
      }
    }

    /** Starts the allocation tree afresh from the non-empty pages. */
    method RebuildAllocationTree()
      modifies this`allocationTree
      ensures fresh(allocationTree) && fresh(allocationTree.Nodes())
      ensures allocationTree.Valid() && TreeCurrent()
    {
      hide KDTree.Valid, KDTree.Stored, BagOf, Listing;
      ListingNone();
      allocationTree := new KDTree<Page>();
      for i := 0 to |pool.pages|
        invariant fresh(allocationTree) && fresh(allocationTree.Nodes()) && allocationTree.Valid()
        invariant BagOf(allocationTree.Stored()) == BagOf(Listing(pool.pages[..i]))
      {
        ListingNext(pool.pages, i);
        ListPage(pool.pages[i], Listing(pool.pages[..i]));
      }
      assert pool.pages[..|pool.pages|] == pool.pages;
    }
  }
}
