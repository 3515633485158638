// Pages, tracks and the page pool of src/page.c.
module Pages {
  import opened Geometry
  import opened Seqs
  import opened SpatialObjects

  const MAX_OBJECTS_PER_PAGE := 64
  const PAGES_PER_TRACK := 16

  class Page {
    const pageId: nat
    var trackId: nat
    var objects: seq<SpatialObject>
    var extent: MBR
    var centroid: Point
    var pinned: bool

    /** What every page of the pool keeps: the extent and centroid describe the objects. */
    ghost predicate Consistent()
      reads this
    {
      && |objects| <= MAX_OBJECTS_PER_PAGE
      && extent == Extent(objects)
      && (objects != [] ==> centroid == MeanCentroid(objects))
    }

    constructor (id: nat, track: nat)
      ensures pageId == id && trackId == track && objects == [] && extent == EMPTY_MBR && !pinned && Consistent()
    {
      pageId, trackId, objects := id, track, [];
      extent, centroid, pinned := EMPTY_MBR, Point(0.0, 0.0), false;
    }

    predicate IsFull()
      reads this
    {
      |objects| >= MAX_OBJECTS_PER_PAGE
    }

    /** Appends obj unless the page is full; the centroid is left to UpdateDerived. */
    method AddObject(obj: SpatialObject) returns (ok: bool)
      modifies this`objects, this`extent
      ensures ok <==> |old(objects)| < 64
      ensures ok ==> objects == old(objects) + [obj] && extent == ExpandMBR(old(extent), obj.mbr)
      ensures !ok ==> objects == old(objects) && extent == old(extent)
    {
      if |objects| >= MAX_OBJECTS_PER_PAGE { return false; }
      objects := objects + [obj];
      extent := ExpandMBR(extent, obj.mbr);
      return true;
    }

    /** Recomputes the extent, and the centroid of a non-empty page. */
    method UpdateDerived()
      requires |objects| <= MAX_OBJECTS_PER_PAGE
      modifies this`extent, this`centroid
      ensures Consistent()
      ensures objects == [] ==> centroid == old(centroid)
    {
      hide ExpandMBR;
      extent := EMPTY_MBR;
      var cx, cy := 0.0, 0.0;
      for i := 0 to |objects|
        invariant extent == Extent(objects[..i])
        invariant cx == CentroidSumX(objects[..i]) && cy == CentroidSumY(objects[..i])
        invariant centroid == old(centroid)
      {
        assert objects[..i + 1][..i] == objects[..i];
        extent := ExpandMBR(extent, objects[i].mbr);
        cx := cx + objects[i].centroid.x;
        cy := cy + objects[i].centroid.y;
      }
      assert objects[..|objects|] == objects;
      if |objects| > 0 {
        centroid := Point(cx / (|objects| as real), cy / (|objects| as real));
      }
    }

    /** Removes the first object with this id. */
    method RemoveObject(id: nat) returns (found: bool)
      requires Consistent()
      modifies this`objects, this`extent, this`centroid
      ensures Consistent()
      ensures found <==> IndexOfId(old(objects), id) < |old(objects)|
      ensures found ==> objects == Without(old(objects), IndexOfId(old(objects), id))
      ensures !found ==> objects == old(objects) && extent == old(extent) && centroid == old(centroid)
    {
      hide Extent, CentroidSumX, CentroidSumY, IndexOfId;
      var i := 0;
      while i < |objects|
        invariant i <= |objects|
        invariant forall j | 0 <= j < i :: objects[j].id != id
      {
        if objects[i].id == id {
          IndexOfIdUnique(objects, id, i);
          objects := objects[..i] + objects[i + 1..];
          UpdateDerived();
          return true;
        }
        i := i + 1;
      }
      IndexOfIdUnique(objects, id, i);
      return false;
    }

    method FindObject(id: nat) returns (found: Option<SpatialObject>)
      ensures var i := IndexOfId(objects, id);
        found == if i < |objects| then Some(objects[i]) else None
    {
      hide IndexOfId;
      for i := 0 to |objects|
        invariant forall j | 0 <= j < i :: objects[j].id != id
      {
        if objects[i].id == id {
          IndexOfIdUnique(objects, id, i);
          return Some(objects[i]);
        }
      }
      IndexOfIdUnique(objects, id, |objects|);
      return None;
    }
  }

  // ---------- Groups of pages ----------

  /** All objects, page by page. */
  ghost function AllObjects(ps: seq<Page>): seq<SpatialObject>
    reads ps`objects
  {
    if ps == [] then [] else AllObjects(ps[..|ps| - 1]) + ps[|ps| - 1].objects
  }

  /** Each element twice, in adjacent places. */
  function Doubled<T>(s: seq<T>): (r: seq<T>)
    ensures |r| == 2 * |s|
  {
    if s == [] then [] else Doubled(s[..|s| - 1]) + [s[|s| - 1], s[|s| - 1]]
  }

  lemma {:induction false} DoubledCount<T>(s: seq<T>, x: T)
    ensures multiset(Doubled(s))[x] == 2 * multiset(s)[x]
  {
    if s != [] {
      var n := |s| - 1;
      DoubledCount(s[..n], x);
      assert s == s[..n] + [s[n]];
      assert multiset(s) == multiset(s[..n]) + multiset{s[n]};
      assert multiset(Doubled(s)) == multiset(Doubled(s[..n])) + multiset{s[n], s[n]};
    }
  }

  /** The union of the pages' extents. */
  ghost function JointExtent(ps: seq<Page>): MBR
    reads ps
  {
    if ps == [] then EMPTY_MBR else ExpandMBR(JointExtent(ps[..|ps| - 1]), ps[|ps| - 1].extent)
  }

  /** It contains every extent that is not empty, and lies in every rectangle that does. */
  lemma {:induction false} JointExtentIsLeast(ps: seq<Page>, b: MBR)
    ensures forall p | p in ps && !IsEmpty(p.extent) :: ContainsMBR(JointExtent(ps), p.extent)
    ensures (forall p | p in ps && !IsEmpty(p.extent) ::
              ContainsMBR(b, p.extent) && Finite(Point(p.extent.minX, p.extent.minY)) && Finite(Point(p.extent.maxX, p.extent.maxY)))
            ==> JointExtent(ps) == EMPTY_MBR || ContainsMBR(b, JointExtent(ps))
  {
    if ps != [] {
      var n := |ps| - 1;
      JointExtentIsLeast(ps[..n], b);
      assert ps == ps[..n] + [ps[n]];
    }
  }

  /** The pages with a non-empty extent, and the sums of their centroids. */
  datatype Tally = Tally(x: real, y: real, n: nat)

  ghost function CentroidTally(ps: seq<Page>): Tally
    reads ps
  {
    if ps == [] then Tally(0.0, 0.0, 0)
    else
      var t, p := CentroidTally(ps[..|ps| - 1]), ps[|ps| - 1];
      if IsEmpty(p.extent) then t else Tally(t.x + p.centroid.x, t.y + p.centroid.y, t.n + 1)
  }

  /** The tally adds up over parts and counts a page once if it has an extent. */
  lemma {:induction false} TallyJoins(a: seq<Page>, b: seq<Page>)
    ensures var s, t, u := CentroidTally(a), CentroidTally(b), CentroidTally(a + b);
      u == Tally(s.x + t.x, s.y + t.y, s.n + t.n)
    ensures |a| == 1 ==>
      var p := a[0];
      CentroidTally(a) == if p.extent.minX <= p.extent.maxX && p.extent.minY <= p.extent.maxY
                          then Tally(p.centroid.x, p.centroid.y, 1) else Tally(0.0, 0.0, 0)
  {
    if b == [] {
      assert a + b == a;
    } else {
      var n := |b| - 1;
      assert (a + b)[..|a| + n] == a + b[..n];
      TallyJoins(a, b[..n]);
    }
  }

  class DiskTrack {
    const trackId: nat
    var pages: seq<Page>
    var extent: MBR
    var centroid: Point
    var isFull: bool
    ghost var held: seq<Page>    // the pages of this track, each once

    /** Between allocations a track lists each of its pages exactly twice. */
    ghost predicate Balanced()
      reads this
    {
      && pages == Doubled(held) && NoDuplicates(held)
      && |pages| <= PAGES_PER_TRACK
      && isFull == (|pages| == PAGES_PER_TRACK)
    }

    constructor (id: nat)
      ensures trackId == id && pages == [] && held == [] && Balanced()
    {
      trackId, pages, held := id, [], [];
      extent, centroid, isFull := EMPTY_MBR, Point(0.0, 0.0), false;
    }

    predicate HasSpace()
      reads this
    {
      |pages| < PAGES_PER_TRACK
    }

    /** Records a page that has come to be listed twice. */
    ghost method Settle(page: Page)
      requires pages == Doubled(held) + [page, page] && NoDuplicates(held) && page !in held
      requires |pages| <= PAGES_PER_TRACK && isFull == (|pages| >= PAGES_PER_TRACK)
      modifies this`held
      ensures Balanced() && held == old(held) + [page]
    {
      held := held + [page];
      assert held[..|held| - 1] == old(held);
    }

    /** Lists page (again) and takes it over, unless the track is full. */
    method AddPage(page: Page) returns (ok: bool)
      modifies this`pages, this`isFull, this`extent, this`centroid, page`trackId
      ensures ok <==> |old(pages)| < 16
      ensures ok ==> pages == old(pages) + [page] && page.trackId == trackId
      ensures ok ==> isFull == (old(isFull) || |pages| >= PAGES_PER_TRACK)
      ensures ok ==> extent == JointExtent(pages)
      ensures !ok ==> pages == old(pages) && isFull == old(isFull) && page.trackId == old(page.trackId)
    {
      if |pages| >= PAGES_PER_TRACK { return false; }
      pages := pages + [page];
      page.trackId := trackId;
      if |pages| >= PAGES_PER_TRACK { isFull := true; }
      UpdateDerived();
      return true;
    }

    /** Recomputes the extent, and the centroid when some page has a non-empty extent. */
    method UpdateDerived()
      modifies this`extent, this`centroid
      ensures extent == JointExtent(pages)
      ensures var t := CentroidTally(pages);
        centroid == if t.n > 0 then Point(t.x / (t.n as real), t.y / (t.n as real)) else old(centroid)
    {
      hide ExpandMBR, IsEmpty;
      extent := EMPTY_MBR;
      var cx, cy, validPages := 0.0, 0.0, 0;
      for i := 0 to |pages|
        invariant extent == JointExtent(pages[..i]) && centroid == old(centroid)
        invariant CentroidTally(pages[..i]) == Tally(cx, cy, validPages)
      {
        assert pages[..i + 1][..i] == pages[..i];
        extent := ExpandMBR(extent, pages[i].extent);
        if !IsEmpty(pages[i].extent) {
          cx := cx + pages[i].centroid.x;
          cy := cy + pages[i].centroid.y;
          validPages := validPages + 1;
        }
      }
      assert pages[..|pages|] == pages;
      if validPages > 0 {
        centroid := Point(cx / (validPages as real), cy / (validPages as real));
      }
    }
  }

  // ---------- The page pool ----------

  lemma {:induction false} AllObjectsConcat(a: seq<Page>, b: seq<Page>)
    ensures AllObjects(a + b) == AllObjects(a) + AllObjects(b)
  {
    if b == [] {
      assert a + b == a;
    } else {
      var n := |b| - 1;
      assert (a + b)[..|a + b| - 1] == a + b[..n];
      AllObjectsConcat(a, b[..n]);
    }
  }

  lemma AllObjectsAt(ps: seq<Page>, k: nat)
    requires k < |ps|
    ensures AllObjects(ps) == AllObjects(ps[..k]) + ps[k].objects + AllObjects(ps[k + 1..])
  {
    hide AllObjects;
    assert ps == ps[..k + 1] + ps[k + 1..];
    AllObjectsConcat(ps[..k + 1], ps[k + 1..]);
    AllObjectsLast(ps[..k], ps[k]);
    assert ps[..k + 1] == ps[..k] + [ps[k]];
  }

  lemma AllObjectsLast(ps: seq<Page>, p: Page)
    ensures AllObjects(ps + [p]) == AllObjects(ps) + p.objects
  {
    assert (ps + [p])[..|ps|] == ps;
  }

  /** The pages whose extent meets region, in pool order. */
  function PagesMeeting(ps: seq<Page>, region: MBR): seq<Page>
    reads ps
  {
    if ps == [] then []
    else
      var n := |ps| - 1;
      PagesMeeting(ps[..n], region) + if Intersects(ps[n].extent, region) then [ps[n]] else []
  }

  /** They are the pages with a point of region in their extent, each as often as in the pool. */
  lemma {:induction false} PagesMeetingExactly(ps: seq<Page>, region: MBR, p: Page)
    ensures multiset(PagesMeeting(ps, region))[p]
         == if exists c :: ContainsPoint(p.extent, c) && ContainsPoint(region, c) then multiset(ps)[p] else 0
  {
    hide Intersects, ContainsPoint;
    IntersectsMeansSharedPoint(p.extent, region);
    if ps != [] {
      var n := |ps| - 1;
      PagesMeetingExactly(ps[..n], region, p);
      assert ps == ps[..n] + [ps[n]];
    }
  }

  function Meets(region: MBR): SpatialObject -> bool {
    (o: SpatialObject) => Intersects(o.mbr, region)
  }

  lemma MissedPage(os: seq<SpatialObject>, region: MBR)
    requires !Intersects(Extent(os), region)
    ensures Filter(os, Meets(region)) == []
  {
    hide Extent;
    forall o | o in os ensures !Meets(region)(o) {
      var i :| 0 <= i < |os| && os[i] == o;
      if Intersects(o.mbr, region) {
        ExtentContains(os, i);
        IntersectsMeansSharedPoint(o.mbr, region);
        var p :| ContainsPoint(o.mbr, p) && ContainsPoint(region, p);
        ContainsMeansSubset(Extent(os), o.mbr);
        IntersectsMeansSharedPoint(Extent(os), region);
      }
    }
    FilterNone(os, Meets(region));
  }

  /** Looking only into the pages whose extent meets region loses no object that meets it. */
  lemma {:induction false} TwoLevelIsScan(ps: seq<Page>, region: MBR)
    requires forall p | p in ps :: p.Consistent()
    ensures Filter(AllObjects(PagesMeeting(ps, region)), Meets(region)) == Filter(AllObjects(ps), Meets(region))
  {
    hide Filter, Extent, Intersects;
    if ps != [] {
      var n, keep := |ps| - 1, Meets(region);
      TwoLevelIsScan(ps[..n], region);
      FilterConcat(AllObjects(ps[..n]), ps[n].objects, keep);
      if Intersects(ps[n].extent, region) {
        AllObjectsLast(PagesMeeting(ps[..n], region), ps[n]);
        FilterConcat(AllObjects(PagesMeeting(ps[..n], region)), ps[n].objects, keep);
      } else {
        assert ps[n] in ps;
        MissedPage(ps[n].objects, region);
        assert PagesMeeting(ps, region) == PagesMeeting(ps[..n], region);
      }
    }
  }

  class PagePool {
    var pages: seq<Page>
    var tracks: seq<DiskTrack>
    var nextPageId: nat
    var nextTrackId: nat

    /** Ids are handed out in order, starting at 1. */
    ghost predicate Numbered()
      reads this
    {
      && nextPageId == |pages| + 1 && nextTrackId == |tracks| + 1
      && (forall i | 0 <= i < |pages| :: pages[i].pageId == i + 1)
      && (forall i | 0 <= i < |tracks| :: tracks[i].trackId == i + 1)
    }

    /** Every track lists its own pages, and every page is listed by the track its header names. */
    ghost predicate Listed()
      reads this, pages`trackId, tracks
    {
      && (forall t | t in tracks :: t.Balanced() && forall p | p in t.held :: p in pages && p.trackId == t.trackId)
      && (forall p | p in pages :: 0 < p.trackId <= |tracks| && p in tracks[p.trackId - 1].held)
    }

    ghost predicate Described()
      reads this, pages
    {
      forall p | p in pages :: p.Consistent()
    }

    ghost predicate Valid()
      reads this, pages, tracks
    {
      Numbered() && Listed() && Described()
    }

    constructor ()
      ensures Valid() && pages == [] && tracks == []
    {
      pages, tracks, nextPageId, nextTrackId := [], [], 1, 1;
    }

    /** A new page, also listed once by track trackId if there is such a track with space. */
    method Alloc(trackId: nat) returns (page: Page)
      requires Numbered()
      modifies this`pages, this`nextPageId, if 0 < trackId <= |tracks| then {tracks[trackId - 1]} else {}
      ensures Numbered() && fresh(page) && pages == old(pages) + [page]
      ensures page.pageId == old(nextPageId) && page.trackId == trackId
      ensures page.objects == [] && page.extent == EMPTY_MBR && !page.pinned
      ensures 0 < trackId <= |tracks| ==>
        var t := tracks[trackId - 1];
        && t.held == old(t.held)
        && (if old(|t.pages|) < PAGES_PER_TRACK
            then t.pages == old(t.pages) + [page] && t.isFull == (old(t.isFull) || |t.pages| >= PAGES_PER_TRACK)
            else t.pages == old(t.pages) && t.isFull == old(t.isFull))
    {
      page := new Page(nextPageId, trackId);
      nextPageId := nextPageId + 1;
      pages := pages + [page];
      if trackId > 0 {
        var track := GetTrack(trackId);
        if track != null {
          var _ := track.AddPage(page);
        }
      }
    }

    /** The page with this id, or null. */
    method Get(pageId: nat) returns (page: Page?)
      requires Numbered()
      ensures page == if 0 < pageId <= |pages| then pages[pageId - 1] else null
    {
      for i := 0 to |pages|
        invariant !(0 < pageId <= i)
      {
        if pages[i].pageId == pageId { return pages[i]; }
      }
      return null;
    }

    method GetTrack(trackId: nat) returns (track: DiskTrack?)
      requires Numbered()
      ensures track == if 0 < trackId <= |tracks| then tracks[trackId - 1] else null
    {
      for i := 0 to |tracks|
        invariant !(0 < trackId <= i)
      {
        if tracks[i].trackId == trackId { return tracks[i]; }
      }
      return null;
    }

    method CreateTrack() returns (track: DiskTrack)
      requires Valid()
      modifies this`tracks, this`nextTrackId
      ensures Valid() && fresh(track) && tracks == old(tracks) + [track]
      ensures track.trackId == old(nextTrackId) == |tracks| && track.pages == [] && track.held == []
    {
      hide JointExtent, CentroidTally, Doubled, NoDuplicates;
      track := new DiskTrack(nextTrackId);
      nextTrackId := nextTrackId + 1;
      tracks := tracks + [track];
    }

    /** The pages whose extent meets region: a counting pass sizes the answer, a second pass fills it. */
    method QueryRegion(region: MBR) returns (found: seq<Page>)
      ensures found == PagesMeeting(pages, region)
    {
      hide Intersects, PagesMeeting;
      MeetingNone(region);
      var matching := 0;
      for i := 0 to |pages|
        invariant matching == |PagesMeeting(pages[..i], region)|
      {
        MeetingNext(pages, i, region);
        if Intersects(pages[i].extent, region) { matching := matching + 1; }
      }
      assert pages[..|pages|] == pages;
      if matching == 0 { return []; }
      var collected := new Page?[matching];
      var idx := 0;
      for i := 0 to |pages|
        invariant idx == |PagesMeeting(pages[..i], region)| <= matching
        invariant collected[..idx] == PagesMeeting(pages[..i], region)
        modifies collected
      {
        MeetingNext(pages, i, region);
        MeetingGrows(pages, i + 1, region);
        if Intersects(pages[i].extent, region) {
          collected[idx] := pages[i];
          idx := idx + 1;
        }
      }
      found := collected[..];
    }

    method ObjectCount() returns (total: nat)
      ensures total == |AllObjects(pages)|
    {
      total := 0;
      for i := 0 to |pages|
        invariant total == |AllObjects(pages[..i])|
      {
        assert pages[..i + 1][..i] == pages[..i];
        total := total + |pages[i].objects|;
      }
      assert pages[..|pages|] == pages;
    }
  }

  lemma MeetingNone(region: MBR)
    ensures PagesMeeting([], region) == []
  {
  }

  lemma MeetingNext(ps: seq<Page>, i: nat, region: MBR)
    requires i < |ps|
    ensures PagesMeeting(ps[..i + 1], region)
         == PagesMeeting(ps[..i], region) + if Intersects(ps[i].extent, region) then [ps[i]] else []
  {
    assert ps[..i + 1][..i] == ps[..i];
  }

  lemma {:induction false} MeetingGrows(ps: seq<Page>, i: nat, region: MBR)
    requires i <= |ps|
    ensures |PagesMeeting(ps[..i], region)| <= |PagesMeeting(ps, region)|
    decreases |ps|
  {
    if i < |ps| {
      var n := |ps| - 1;
      assert ps[..n][..i] == ps[..i];
      MeetingGrows(ps[..n], i, region);
    } else {
      assert ps[..i] == ps;
    }
  }

  /** Every page is in exactly one track, the one its header names, and is listed there exactly twice;
      so a track holds at most eight pages. */
  lemma PagesListedTwice(pool: PagePool, p: Page, t: DiskTrack)
    requires pool.Valid() && p in pool.pages && t in pool.tracks
    ensures multiset(t.pages)[p] == if t.trackId == p.trackId then 2 else 0
    ensures |t.pages| <= 16 && 2 * |t.held| == |t.pages| && (t.isFull <==> |t.held| == 8)
  {
    DoubledCount(t.held, p);
    var i :| 0 <= i < |pool.tracks| && pool.tracks[i] == t;
    if p in t.held {
      NoDuplicatesCount(t.held, p);
    } else {
      assert p !in multiset(t.held);
    }
  }

  lemma {:induction false} NoDuplicatesCount<T>(s: seq<T>, x: T)
    requires NoDuplicates(s) && x in s
    ensures multiset(s)[x] == 1
  {
    var i :| 0 <= i < |s| && s[i] == x;
    assert s == s[..i] + [x] + s[i + 1..];
    assert x !in s[..i] && x !in s[i + 1..];
    assert multiset(s[..i])[x] == 0 && multiset(s[i + 1..])[x] == 0;
  }

  /** Page and track ids are unique and below their counters. */
  lemma IdsUnique(pool: PagePool)
    requires pool.Valid()
    ensures NoDuplicates(pool.pages) && NoDuplicates(pool.tracks)
    ensures forall p, q | p in pool.pages && q in pool.pages && p != q :: p.pageId != q.pageId
    ensures forall t, u | t in pool.tracks && u in pool.tracks && t != u :: t.trackId != u.trackId
    ensures forall p | p in pool.pages :: p.pageId < pool.nextPageId
    ensures forall t | t in pool.tracks :: t.trackId < pool.nextTrackId
  {
  }
}
