// The spatial index of src/spatial_index.c: objects in pages, refining a map from id to object.
module SpatialIndexes {
  import opened Geometry
  import opened Seqs
  import opened KDSpec
  import opened KDTrees
  import opened Pages
  import opened DiskManagers
  import opened Shapes
  import opened SpatialObjects
  import QuadSpec
  import QuadTrees

  // ---------- Choosing a page ----------

  /** q is a non-empty page of ps at minimum centroid distance from c (or all are DBL_MAX away). */
  ghost predicate NearestPage(q: Page, ps: seq<Page>, c: Point)
    reads ps`objects, ps`centroid, q`objects, q`centroid
  {
    && q in ps && q.objects != []
    && ((forall p | p in ps && p.objects != [] :: DistSq(c, q.centroid) <= DistSq(c, p.centroid))
        || (forall p | p in ps && p.objects != [] :: DBL_MAX <= DistSq(c, p.centroid)))
  }

  lemma NearestInListing(stored: seq<Entry<Page>>, ps: seq<Page>, e: Entry<Page>, c: Point)
    requires BagOf(stored) == BagOf(Listing(ps)) && IsNearest(e, stored, c)
    ensures NearestPage(e.data, ps, c)
  {
    hide DistSq, Listing;
    SameMultiset(stored, Listing(ps));
    ListingMembers(ps, e);
    forall p | p in ps && p.objects != [] ensures Entry(p.centroid, p.pageId, p) in stored {
      ListingMembers(ps, Entry(p.centroid, p.pageId, p));
    }
  }

  lemma NearestIsPage(q: Page, ps: seq<Page>, c: Point)
    requires NearestPage(q, ps, c)
    ensures q in ps && q.objects != []
  {
  }

  lemma PageSize(p: Page)
    requires p.Consistent()
    ensures |p.objects| <= MAX_OBJECTS_PER_PAGE
  {
  }

  lemma DiskParts(disk: DiskManager)
    ensures disk.Valid() <==>
              && disk.pool.Valid() && disk.allocationTree.Valid()
              && disk.pageCount == |disk.pool.pages| && disk.trackCount == |disk.pool.tracks|
  {
  }

  lemma NothingListed(stored: seq<Entry<Page>>, ps: seq<Page>)
    requires BagOf(stored) == BagOf(Listing(ps))
    ensures stored == [] <==> forall p | p in ps :: p.objects == []
  {
    hide Listing;
    SameMultiset(stored, Listing(ps));
    forall p | p in ps && p.objects != [] ensures stored != [] {
      ListingMembers(ps, Entry(p.centroid, p.pageId, p));
    }
    if stored != [] { ListingMembers(ps, stored[0]); }
  }

  // ---------- The pages as one sequence of objects ----------

  /** Appending to page k inserts into the sequence of all objects. */
  lemma AppendedToPage(before: seq<SpatialObject>, os: seq<SpatialObject>, after: seq<SpatialObject>, x: SpatialObject)
    ensures before + (os + [x]) + after == InsertedAt(before + os + after, |before| + |os|, x)
  {
  }

  lemma RemovedFromPage(before: seq<SpatialObject>, os: seq<SpatialObject>, after: seq<SpatialObject>, i: nat)
    requires i < |os|
    ensures before + Without(os, i) + after == Without(before + os + after, |before| + i)
  {
  }

  /** The first page that holds id, or |ps|. */
  ghost function PageWith(ps: seq<Page>, id: nat): (k: nat)
    reads ps`objects
    ensures k <= |ps|
  {
    if ps == [] then 0 else if IndexOfId(ps[0].objects, id) < |ps[0].objects| then 0 else 1 + PageWith(ps[1..], id)
  }

  lemma PageWithHead(ps: seq<Page>, id: nat)
    requires ps != []
    ensures PageWith(ps, id) == if IndexOfId(ps[0].objects, id) < |ps[0].objects| then 0 else 1 + PageWith(ps[1..], id)
  {
  }

  lemma PageWithNone(ps: seq<Page>, id: nat)
    requires ps == []
    ensures PageWith(ps, id) == 0
  {
  }

  /** Looking page by page finds the first object with this id. */
  lemma {:induction false} PageWithIsFirst(ps: seq<Page>, id: nat)
    ensures var k := PageWith(ps, id);
      && (forall j | 0 <= j < k :: IndexOfId(ps[j].objects, id) == |ps[j].objects|)
      && IndexOfId(AllObjects(ps), id)
         == (if k == |ps| then |AllObjects(ps)| else |AllObjects(ps[..k])| + IndexOfId(ps[k].objects, id))
      && (k < |ps| ==> IndexOfId(ps[k].objects, id) < |ps[k].objects|)
  {
    hide IndexOfId;
    if ps == [] {
    } else {
      assert ps == [ps[0]] + ps[1..];
      AllObjectsConcat([ps[0]], ps[1..]);
      assert AllObjects([ps[0]]) == ps[0].objects by { AllObjectsLast([], ps[0]); assert [] + [ps[0]] == [ps[0]]; }
      IndexOfIdConcat(ps[0].objects, AllObjects(ps[1..]), id);
      PageWithIsFirst(ps[1..], id);
      var k := PageWith(ps, id);
      if 0 < k < |ps| {
        assert ps[..k] == [ps[0]] + ps[1..][..k - 1];
        AllObjectsConcat([ps[0]], ps[1..][..k - 1]);
      }
    }
  }

  /** b contains every non-empty rectangle of the objects. */
  ghost predicate Within(os: seq<SpatialObject>, b: MBR) {
    forall o | o in os && !IsEmpty(o.mbr) :: ContainsMBR(b, o.mbr)
  }

  lemma WithinInserted(os: seq<SpatialObject>, b: MBR, at: nat, x: SpatialObject)
    requires Within(os, b) && at <= |os|
    ensures Within(InsertedAt(os, at, x), ExpandMBR(b, x.mbr))
  {
  }

  lemma WithinRemoved(os: seq<SpatialObject>, b: MBR, i: nat)
    requires Within(os, b) && i < |os|
    ensures Within(Without(os, i), b)
  {
  }

  /** Every point and non-empty linestring has its centroid in its rectangle. */
  ghost predicate Centered(os: seq<SpatialObject>) {
    forall o | o in os && PointOrLine(o) :: ContainsPoint(o.mbr, o.centroid)
  }

  lemma CenteredInserted(os: seq<SpatialObject>, at: nat, x: SpatialObject)
    requires at <= |os| && (PointOrLine(x) ==> ContainsPoint(x.mbr, x.centroid))
    ensures Centered(os) ==> Centered(InsertedAt(os, at, x))
  {
  }

  lemma CenteredRemoved(os: seq<SpatialObject>, i: nat)
    requires Centered(os) && i < |os|
    ensures Centered(Without(os, i))
  {
  }

  /** The rectangle of every object that has one contains the object's vertices. */
  ghost predicate Boxed(os: seq<SpatialObject>) {
    forall o | o in os :: BoxedOne(o)
  }

  ghost predicate BoxedOne(o: SpatialObject) {
    HasBox(o.geom) ==> forall p | p in Vertices(o.geom) :: ContainsPoint(o.mbr, p)
  }

  lemma BoxedInserted(os: seq<SpatialObject>, at: nat, x: SpatialObject)
    requires Boxed(os) && at <= |os| && BoxedOne(x)
    ensures Boxed(InsertedAt(os, at, x))
  {
    hide BoxedOne;
  }

  lemma BoxedRemoved(os: seq<SpatialObject>, i: nat)
    requires Boxed(os) && i < |os|
    ensures Boxed(Without(os, i))
  {
    hide BoxedOne;
  }

  lemma DerivedIsBoxed(sqrt: real -> real, o: SpatialObject)
    ensures BoxedOne(Derived(sqrt, o))
  {
    hide LineCentroid, RingCentroid, Hull, ContainsPoint;
    assert Derived(sqrt, o).geom == o.geom;
    if HasBox(o.geom) { DerivedBox(sqrt, o); }
  }

  /** A range that contains a vertex of a stored point, line or polygon finds the object. */
  lemma VertexIsFound(index: SpatialIndex, o: SpatialObject, p: Point, range: MBR)
    requires index.Valid() && o in index.Objects() && HasBox(o.geom) && p in Vertices(o.geom)
    requires range.minX <= p.x <= range.maxX && range.minY <= p.y <= range.maxY
    ensures o in Filter(index.Objects(), Meets(range))
  {
    hide AllObjects, Within, Named, Centered, NonNegative, DiskManager.Valid, DiskManager.TreeCurrent, Vertices, HasBox;
    assert BoxedOne(o);
    IntersectsMeansSharedPoint(o.mbr, range);
    assert ContainsPoint(range, p);
  }

  /** What a range query keeps, in coordinates: rectangles that touch the range count. */
  lemma MeetsMeans(o: SpatialObject, range: MBR)
    requires o.mbr.minX <= o.mbr.maxX && o.mbr.minY <= o.mbr.maxY
    requires range.minX <= range.maxX && range.minY <= range.maxY
    ensures Meets(range)(o) <==>
      && o.mbr.minX <= range.maxX && range.minX <= o.mbr.maxX && o.mbr.minY <= range.maxY && range.minY <= o.mbr.maxY
  {
  }

  lemma CentroidsWithin(os: seq<SpatialObject>, part: seq<SpatialObject>, b: MBR)
    requires Within(os, b) && Centered(os) && forall o | o in part :: o in os && PointOrLine(o)
    ensures forall o | o in part :: ContainsPoint(o.mbr, o.centroid) && ContainsPoint(b, o.centroid)
  {
    forall o | o in part ensures ContainsPoint(o.mbr, o.centroid) && ContainsPoint(b, o.centroid) {
      ContainsMeansSubset(b, o.mbr);
    }
  }

  /** In an index of points and non-empty linestrings the centroid of every non-empty page lies
      inside the page's extent and inside the bounds of the index. */
  lemma PageCentroidInside(index: SpatialIndex, p: Page)
    requires index.Valid() && NonNegative(index.sqrt)
    requires p in index.disk.pool.pages && p.objects != [] && forall o | o in p.objects :: PointOrLine(o)
    ensures ContainsPoint(p.extent, p.centroid) && ContainsPoint(index.bounds, p.centroid)
  {
    hide Extent, MeanCentroid, AllObjects, NonNegative, Within, Named, Boxed, Centered, ContainsPoint, PointOrLine;
    hide KDTree.Valid, PagePool.Listed, DiskManager.TreeCurrent, BagOf;
    var ps := index.disk.pool.pages;
    var k :| 0 <= k < |ps| && ps[k] == p;
    AllObjectsAt(ps, k);
    CentroidsWithin(index.Objects(), p.objects, index.bounds);
    assert p.Consistent();
    MeanCentroidInside(p.objects);
    MeanInside(p.objects, index.bounds);
  }

  lemma NoObjects(ps: seq<Page>)
    requires ps == []
    ensures AllObjects(ps) == []
  {
  }

  lemma DerivedKeepsId(sqrt: real -> real, o: SpatialObject)
    ensures Derived(sqrt, o).id == o.id && PointOrLine(Derived(sqrt, o)) == PointOrLine(o)
  {
  }

  lemma DerivedIgnoresId(sqrt: real -> real, o: SpatialObject, id: nat)
    ensures Derived(sqrt, o.(id := id)) == Derived(sqrt, o).(id := id)
  {
  }

  lemma InsertIsStep(os: seq<SpatialObject>, nextId: nat, x: SpatialObject, at: nat)
    requires at <= |os|
    ensures Step(os, nextId, Op.Insert(x), InsertedAt(os, at, x.(id := IdOf(x, nextId))))
  {
  }

  lemma UpdateIsStep(os: seq<SpatialObject>, nextId: nat, id: nat, x: SpatialObject, at: nat)
    requires IndexOfId(os, id) < |os| && at < |os|
    ensures Step(os, nextId, Op.Update(id, x), InsertedAt(Without(os, IndexOfId(os, id)), at, x.(id := id)))
  {
  }

  lemma MissIsStep(os: seq<SpatialObject>, nextId: nat, id: nat, x: SpatialObject)
    requires IndexOfId(os, id) == |os|
    ensures Step(os, nextId, Op.Update(id, x), os)
  {
  }

  lemma RemoveIsStep(os: seq<SpatialObject>, nextId: nat, id: nat)
    ensures Step(os, nextId, Op.Remove(id), if IndexOfId(os, id) < |os| then Without(os, IndexOfId(os, id)) else os)
  {
  }

  /** Every object has an id. */
  ghost predicate Named(os: seq<SpatialObject>) {
    forall o | o in os :: o.id > 0
  }

  lemma NamedInserted(os: seq<SpatialObject>, at: nat, x: SpatialObject)
    requires Named(os) && at <= |os| && x.id > 0
    ensures Named(InsertedAt(os, at, x))
  {
  }

  lemma NamedRemoved(os: seq<SpatialObject>, i: nat)
    requires Named(os) && i < |os|
    ensures Named(Without(os, i))
  {
  }

  lemma NamedHasNoZero(os: seq<SpatialObject>)
    requires Named(os)
    ensures IndexOfId(os, 0) == |os|
  {
  }

  // ---------- What a build indexes ----------

  /** Where an object sits: a position in the object array of a page. */
  datatype Slot = Slot(page: Page, index: nat)

  /** The entries of the first n objects of p, at their centroids. */
  ghost function PageSlots(p: Page, n: nat): seq<Entry<Slot>>
    requires n <= |p.objects|
    reads p`objects
  {
    if n == 0 then [] else PageSlots(p, n - 1) + [Entry(p.objects[n - 1].centroid, p.objects[n - 1].id, Slot(p, n - 1))]
  }

  ghost function SlotsOf(ps: seq<Page>): seq<Entry<Slot>>
    reads ps`objects
  {
    if ps == [] then [] else var n := |ps| - 1; SlotsOf(ps[..n]) + PageSlots(ps[n], |ps[n].objects|)
  }

  lemma SlotsNext(ps: seq<Page>, i: nat)
    requires i < |ps|
    ensures SlotsOf(ps[..i + 1]) == SlotsOf(ps[..i]) + PageSlots(ps[i], |ps[i].objects|)
  {
    assert ps[..i + 1][..i] == ps[..i];
  }

  lemma SlotsNone(ps: seq<Page>)
    requires ps == []
    ensures SlotsOf(ps) == []
  {
  }

  /** e stands for the object o. */
  ghost predicate Stands(e: Entry<Slot>, o: SpatialObject)
    reads e.data.page`objects
  {
    && e.data.index < |e.data.page.objects| && e.data.page.objects[e.data.index] == o
    && e.point == o.centroid && e.id == o.id
  }

  lemma {:induction false} PageSlotsLocate(p: Page, n: nat)
    requires n <= |p.objects|
    ensures |PageSlots(p, n)| == n && forall i | 0 <= i < n :: Stands(PageSlots(p, n)[i], p.objects[i])
  {
    if n > 0 { PageSlotsLocate(p, n - 1); }
  }

  /** One entry for each object, in the same order. */
  lemma {:induction false} SlotsLocate(ps: seq<Page>)
    ensures |SlotsOf(ps)| == |AllObjects(ps)|
    ensures forall i | 0 <= i < |SlotsOf(ps)| :: Stands(SlotsOf(ps)[i], AllObjects(ps)[i])
  {
    hide Stands;
    if ps != [] {
      var n := |ps| - 1;
      SlotsLocate(ps[..n]);
      PageSlotsLocate(ps[n], |ps[n].objects|);
    }
  }

  lemma {:induction false} TwiceCounted<T>(s: seq<T>, i: nat, j: nat)
    requires i < j < |s| && s[i] == s[j]
    ensures multiset(s)[s[i]] >= 2
  {
    assert s == s[..j] + s[j..];
    assert s[i] in multiset(s[..j]) && s[j] in multiset(s[j..]);
  }

  /** An answer over any arrangement of the entries is an answer over the entries. */
  lemma KNearestRearranged<D>(out: seq<Entry<D>>, a: seq<Entry<D>>, b: seq<Entry<D>>, q: Point, k: nat)
    requires BagOf(a) == BagOf(b) && KNearest(out, a, q, k)
    ensures KNearest(out, b, q, k)
  {
    hide DistSq;
    SameMultiset(a, b);
  }

  /** Entries items of ps stand for the objects result. */
  ghost predicate Answer(ps: seq<Page>, items: seq<Entry<Slot>>, result: seq<SpatialObject>)
    reads ps`objects, set e | e in items :: e.data.page`objects
  {
    && |result| == |items| && (forall i | 0 <= i < |items| :: Stands(items[i], result[i]))
    && multiset(items) <= multiset(SlotsOf(ps))
  }

  lemma AnswerAt(ps: seq<Page>, items: seq<Entry<Slot>>, result: seq<SpatialObject>, i: nat) returns (a: nat)
    requires Answer(ps, items, result) && i < |items|
    ensures i < |result| && a < |SlotsOf(ps)| == |AllObjects(ps)|
    ensures SlotsOf(ps)[a] == items[i] && AllObjects(ps)[a] == result[i]
  {
    SlotsLocate(ps);
    assert items[i] in multiset(items) && items[i] in multiset(SlotsOf(ps));
    a :| 0 <= a < |SlotsOf(ps)| && SlotsOf(ps)[a] == items[i];
    assert Stands(SlotsOf(ps)[a], AllObjects(ps)[a]);
  }

  lemma AnswersDiffer(ps: seq<Page>, items: seq<Entry<Slot>>, result: seq<SpatialObject>, i: nat, j: nat)
    requires Keyed(AllObjects(ps)) && Answer(ps, items, result) && i < j < |items|
    ensures j < |result| && result[i].id != result[j].id
  {
    hide Answer, SlotsOf, AllObjects;
    var a := AnswerAt(ps, items, result, i);
    var b := AnswerAt(ps, items, result, j);
    if a == b {
      TwiceCounted(items, i, j);
      EntriesOnce(ps, a);
      AnswerBag(ps, items, result, items[i]);
    }
  }

  lemma AnswerBag(ps: seq<Page>, items: seq<Entry<Slot>>, result: seq<SpatialObject>, e: Entry<Slot>)
    requires Answer(ps, items, result)
    ensures multiset(items)[e] <= multiset(SlotsOf(ps))[e]
  {
  }

  /** An object that is not in the answer has an entry among the entries left out. */
  lemma LeftOut(ps: seq<Page>, items: seq<Entry<Slot>>, result: seq<SpatialObject>, o: SpatialObject) returns (e: Entry<Slot>)
    requires Answer(ps, items, result) && o in AllObjects(ps) && o !in result
    ensures Stands(e, o) && e in multiset(SlotsOf(ps)) - multiset(items)
  {
    hide SlotsOf, AllObjects;
    SlotsLocate(ps);
    var a :| 0 <= a < |AllObjects(ps)| && AllObjects(ps)[a] == o;
    e := SlotsOf(ps)[a];
    forall j | 0 <= j < |items| ensures items[j] != e {
      assert Stands(items[j], result[j]) && result[j] in result;
    }
    assert e in multiset(SlotsOf(ps)) && multiset(items)[e] == 0;
  }

  /** In a store without repeated ids, the k nearest entries stand for distinct objects, closest first,
      and no object left out is closer than one returned. */
  lemma KnnMeaning(ps: seq<Page>, items: seq<Entry<Slot>>, result: seq<SpatialObject>, q: Point, k: nat)
    requires Keyed(AllObjects(ps)) && KNearest(items, SlotsOf(ps), q, k)
    requires |result| == |items| && forall i | 0 <= i < |items| :: Stands(items[i], result[i])
    ensures |result| == if k < |AllObjects(ps)| then k else |AllObjects(ps)|
    ensures forall o | o in result :: o in AllObjects(ps)
    ensures forall i, j | 0 <= i < j < |result| ::
      result[i].id != result[j].id && DistSq(q, result[i].centroid) <= DistSq(q, result[j].centroid)
    ensures forall o, r | o in AllObjects(ps) && o !in result && r in result ::
      DistSq(q, r.centroid) <= DistSq(q, o.centroid)
  {
    hide DistSq, SlotsOf, AllObjects, Keyed;
    SlotsLocate(ps);
    assert Answer(ps, items, result);
    forall o | o in result ensures o in AllObjects(ps) {
      var i :| 0 <= i < |result| && result[i] == o;
      var a := AnswerAt(ps, items, result, i);
    }
    forall i, j | 0 <= i < j < |result|
      ensures result[i].id != result[j].id && DistSq(q, result[i].centroid) <= DistSq(q, result[j].centroid)
    {
      AnswersDiffer(ps, items, result, i, j);
    }
    forall o, r | o in AllObjects(ps) && o !in result && r in result ensures DistSq(q, r.centroid) <= DistSq(q, o.centroid) {
      var i :| 0 <= i < |result| && result[i] == r;
      var e := LeftOut(ps, items, result, o);
      assert items[i] in items && Stands(items[i], r);
    }
  }

  /** What the stored entries of a current block tree say about the objects. */
  lemma StoredSlots(stored: seq<Entry<Slot>>, ps: seq<Page>)
    requires BagOf(stored) == BagOf(SlotsOf(ps))
    ensures stored == [] <==> AllObjects(ps) == []
    ensures forall e | e in stored :: e in SlotsOf(ps)
    ensures (forall o | o in AllObjects(ps) :: Finite(o.centroid)) ==> AllFinite(stored)
  {
    hide Stands;
    SlotsLocate(ps);
    SameMultiset(stored, SlotsOf(ps));
    if forall o | o in AllObjects(ps) :: Finite(o.centroid) {
      forall e | e in stored ensures Finite(e.point) {
        var i :| 0 <= i < |SlotsOf(ps)| && SlotsOf(ps)[i] == e;
        StandsAt(e, AllObjects(ps)[i]);
      }
    }
  }

  lemma StandsAt(e: Entry<Slot>, o: SpatialObject)
    requires Stands(e, o)
    ensures e.data.index < |e.data.page.objects| && e.data.page.objects[e.data.index] == o && e.point == o.centroid
  {
  }

  /** Following an entry to its slot finds the object it stands for. */
  lemma SlotAt(e: Entry<Slot>, ps: seq<Page>)
    requires e in SlotsOf(ps)
    ensures e.data.index < |e.data.page.objects| && Stands(e, e.data.page.objects[e.data.index])
  {
    SlotsLocate(ps);
    var i :| 0 <= i < |SlotsOf(ps)| && SlotsOf(ps)[i] == e;
    assert Stands(SlotsOf(ps)[i], AllObjects(ps)[i]);
  }

  /** Entries of a current block tree stand for the objects in their slots, and the k nearest of the
      tree are the k nearest of the objects. */
  lemma CurrentSlots(index: SpatialIndex)
    requires index.BlocksCurrent()
    ensures index.blockTree.Stored() == [] <==> index.Objects() == []
    ensures forall e | e in index.blockTree.Stored() ::
      e.data.index < |e.data.page.objects| && Stands(e, e.data.page.objects[e.data.index])
    ensures (forall o | o in index.Objects() :: Finite(o.centroid)) ==> AllFinite(index.blockTree.Stored())
    ensures forall items, p, k | KNearest(items, index.blockTree.Stored(), p, k) ::
      KNearest(items, SlotsOf(index.disk.pool.pages), p, k)
  {
    hide KDTree.Valid, KDTree.Stored, KNearest, BagOf, SlotsOf, AllObjects, Stands, Finite;
    var stored, ps := index.blockTree.Stored(), index.disk.pool.pages;
    StoredSlots(stored, ps);
    forall e | e in stored
      ensures e.data.index < |e.data.page.objects| && Stands(e, e.data.page.objects[e.data.index])
    {
      SlotAt(e, ps);
    }
    forall items, p, k | KNearest(items, stored, p, k) ensures KNearest(items, SlotsOf(ps), p, k) {
      KNearestRearranged(items, stored, SlotsOf(ps), p, k);
    }
  }

  lemma EntriesOnce(ps: seq<Page>, a: nat)
    requires Keyed(AllObjects(ps)) && a < |SlotsOf(ps)|
    ensures multiset(SlotsOf(ps))[SlotsOf(ps)[a]] == 1
  {
    SlotsLocate(ps);
    var os, all := AllObjects(ps), SlotsOf(ps);
    forall i, j | 0 <= i < j < |all| ensures all[i] != all[j] {
      assert Stands(all[i], os[i]) && Stands(all[j], os[j]);
    }
    NoDuplicatesCount(all, all[a]);
  }

  /** The inner loop of a range query: appends the objects that meet range. */
  method AddMeeting(objects: seq<SpatialObject>, range: MBR, result: seq<SpatialObject>) returns (r: seq<SpatialObject>)
    ensures r == result + Filter(objects, Meets(range))
  {
    hide Intersects, Filter;
    r := result;
    FilterNone(objects[..0], Meets(range));
    for j := 0 to |objects|
      invariant r == result + Filter(objects[..j], Meets(range))
    {
      FilterPrefix(objects, j, Meets(range));
      if Intersects(objects[j].mbr, range) { r := r + [objects[j]]; }
    }
    assert objects[..|objects|] == objects;
  }

  // ---------- The page quadtree ----------

  /** The non-empty pages whose extent meets b, as quadtree items. */
  ghost function PageItems(ps: seq<Page>, b: MBR): seq<QuadSpec.Item<Page>>
    reads ps`objects, ps`extent, ps`centroid
  {
    if ps == [] then []
    else
      var n := |ps| - 1;
      PageItems(ps[..n], b) +
      if ps[n].objects != [] && Intersects(b, ps[n].extent)
      then [QuadSpec.Item(ps[n].pageId, ps[n].extent, ps[n].centroid, ps[n])] else []
  }

  lemma PageItemsNext(ps: seq<Page>, i: nat, b: MBR)
    requires i < |ps|
    ensures PageItems(ps[..i + 1], b)
         == PageItems(ps[..i], b) + if ps[i].objects != [] && Intersects(b, ps[i].extent)
            then [QuadSpec.Item(ps[i].pageId, ps[i].extent, ps[i].centroid, ps[i])] else []
  {
    assert ps[..i + 1][..i] == ps[..i];
  }

  lemma PageItemsNone(ps: seq<Page>, b: MBR)
    requires ps == []
    ensures PageItems(ps, b) == []
  {
  }

  /** What a page quadtree stores together with what its splits dropped. */
  ghost function Ledger(t: QuadTrees.QuadTree<Page>): multiset<QuadSpec.Item<Page>>
    reads t, t.root
  {
    multiset(t.Stored()) + t.dropped
  }

  ghost function ItemBag(s: seq<QuadSpec.Item<Page>>): multiset<QuadSpec.Item<Page>> { multiset(s) }

  lemma ItemBagGrows(s: seq<QuadSpec.Item<Page>>, x: QuadSpec.Item<Page>)
    ensures ItemBag(s + [x]) == ItemBag(s) + multiset{x}
    ensures ItemBag([]) == multiset{}
  {
  }

  lemma EmptyLedger(t: QuadTrees.QuadTree<Page>)
    requires t.Stored() == [] && t.dropped == multiset{}
    ensures Ledger(t) == ItemBag([])
  {
  }

  /** Inserts a page that is not empty; one that does not meet the root rectangle is refused. */
  method InsertPage(tree: QuadTrees.QuadTree<Page>, page: Page, ghost items: seq<QuadSpec.Item<Page>>)
    requires tree.Valid() && Ledger(tree) == ItemBag(items)
    modifies tree, tree.Nodes()
    ensures tree.Valid() && fresh(tree.Nodes() - old(tree.Nodes()))
    ensures tree.root == old(tree.root) && tree.root.bounds == old(tree.root.bounds)
    ensures tree.nodeCapacity == old(tree.nodeCapacity) && tree.maxDepth == old(tree.maxDepth)
    ensures Ledger(tree) == ItemBag(items +
      if page.objects != [] && Intersects(old(tree.root.bounds), page.extent)
      then [QuadSpec.Item(page.pageId, page.extent, page.centroid, page)] else [])
  {
    hide QuadTrees.QuadTree.Valid, Intersects, ItemBag;
    ItemBagGrows(items, QuadSpec.Item(page.pageId, page.extent, page.centroid, page));
    assert items + [] == items;
    if |page.objects| > 0 {
      var _ := tree.InsertWithCentroid(page.pageId, page.extent, page.centroid, page);
    }
  }

  /** Without objects, a block tree is current exactly if it is empty. */
  lemma NothingCurrent(stored: seq<Entry<Slot>>, ps: seq<Page>)
    requires AllObjects(ps) == []
    ensures BagOf(stored) == BagOf(SlotsOf(ps)) <==> stored == []
  {
    hide AllObjects, SlotsOf;
    SlotsCount(ps);
    if BagOf(stored) == BagOf(SlotsOf(ps)) { SameMultiset(stored, SlotsOf(ps)); }
  }

  function PagesOf(items: seq<QuadSpec.Item<Page>>): seq<Page> {
    seq(|items|, i requires 0 <= i < |items| => items[i].data)
  }

  lemma {:induction false} PageItemsMembers(ps: seq<Page>, b: MBR, x: QuadSpec.Item<Page>)
    ensures x in PageItems(ps, b) <==>
      && x.data in ps && x.data.objects != [] && Intersects(b, x.data.extent)
      && x == QuadSpec.Item(x.data.pageId, x.data.extent, x.data.centroid, x.data)
  {
    hide Intersects;
    if ps != [] {
      var n := |ps| - 1;
      PageItemsMembers(ps[..n], b, x);
      assert ps == ps[..n] + [ps[n]];
    }
  }

  /** The corners of every rectangle are numbers a finite double can hold. */
  ghost predicate FiniteBoxes(os: seq<SpatialObject>) {
    forall o | o in os :: Finite(Point(o.mbr.minX, o.mbr.minY)) && Finite(Point(o.mbr.maxX, o.mbr.maxY))
  }

  /** The extent of every page that has one lies in the bounds of the index. */
  lemma ExtentsWithin(index: SpatialIndex, p: Page)
    requires index.Valid() && FiniteBoxes(index.Objects())
    requires p in index.disk.pool.pages && !IsEmpty(p.extent)
    ensures p.objects != [] && ContainsMBR(index.bounds, p.extent) && Intersects(index.bounds, p.extent)
  {
    hide Extent, AllObjects, NonNegative, Centered, ContainsMBR, MeanCentroid;
    hide KDTree.Valid, PagePool.Listed, DiskManager.TreeCurrent, BagOf;
    var ps := index.disk.pool.pages;
    var k :| 0 <= k < |ps| && ps[k] == p;
    AllObjectsAt(ps, k);
    assert p.Consistent();
    assert forall o | o in p.objects :: o in index.Objects();
    ExtentIsLeast(p.objects, index.bounds);
    EmptyExtent();
    ContainedMeets(index.bounds, p.extent);
  }

  lemma EmptyExtent()
    ensures Extent([]) == EMPTY_MBR && IsEmpty(EMPTY_MBR)
  {
  }

  lemma ContainedMeets(a: MBR, b: MBR)
    requires ContainsMBR(a, b)
    ensures Intersects(a, b)
  {
  }

  /** Stored or dropped, an item of a page tree stands for a page with an extent. */
  lemma LedgerPage(index: SpatialIndex, tree: QuadTrees.QuadTree<Page>, x: QuadSpec.Item<Page>)
    requires index.Valid() && FiniteBoxes(index.Objects())
    requires Ledger(tree) == ItemBag(PageItems(index.disk.pool.pages, index.bounds))
    requires x in tree.Stored() || x in tree.dropped
    ensures x.data in index.disk.pool.pages && x.bounds == x.data.extent && !IsEmpty(x.bounds)
    ensures ContainsMBR(index.bounds, x.bounds)
  {
    hide PageItems, Intersects, ContainsMBR, IsEmpty, QuadSpec.All, FiniteBoxes;
    hide DiskManager.Valid, DiskManager.TreeCurrent, Within, Named, Boxed, Centered, NonNegative, AllObjects;
    assert x in Ledger(tree) && x in ItemBag(PageItems(index.disk.pool.pages, index.bounds));
    PageItemsMembers(index.disk.pool.pages, index.bounds, x);
    MeetingIsNotEmpty(index.bounds, x.bounds);
    ExtentsWithin(index, x.data);
  }

  /** Of a page tree built from the pages as they are: the pages found adjacent to a region, together with
      the adjacent ones its splits dropped, are exactly the pages with an extent that close to it. */
  lemma AdjacentPagesExact(index: SpatialIndex, tree: QuadTrees.QuadTree<Page>, region: MBR, p: Page)
    requires index.Valid() && FiniteBoxes(index.Objects()) && !IsEmpty(region)
    requires tree.Valid() && tree.root.bounds == index.bounds
    requires Ledger(tree) == ItemBag(PageItems(index.disk.pool.pages, index.bounds))
    ensures p in PagesOf(QuadSpec.AdjacentIn(tree.Model(), region))
         || (exists x | x in tree.dropped :: x.data == p && QuadSpec.Adjacent(x.bounds, region))
        <==> p in index.disk.pool.pages && !IsEmpty(p.extent) && QuadSpec.Adjacent(p.extent, region)
  {
    hide PageItems, Intersects, ContainsMBR, IsEmpty, QuadSpec.Adjacent, QuadSpec.AdjacentIn, QuadSpec.Placed, QuadSpec.All;
    hide DiskManager.Valid, DiskManager.TreeCurrent, Within, Named, Boxed, Centered, NonNegative, FiniteBoxes, AllObjects;
    var ps, b := index.disk.pool.pages, index.bounds;
    RootBounds(tree);
    forall x | x in QuadSpec.All(tree.Model()) ensures ContainsMBR(b, x.bounds) { LedgerPage(index, tree, x); }
    QuadSpec.AdjacencyExact(tree.Model(), region, tree.nodeCapacity, tree.maxDepth);
    var found := QuadSpec.AdjacentIn(tree.Model(), region);
    assert found == Filter(tree.Stored(), QuadSpec.AdjacentTo(region));
    if p in ps && !IsEmpty(p.extent) && QuadSpec.Adjacent(p.extent, region) {
      var x := QuadSpec.Item(p.pageId, p.extent, p.centroid, p);
      ExtentsWithin(index, p);
      PageItemsMembers(ps, b, x);
      assert x in ItemBag(PageItems(ps, b)) && x in Ledger(tree);
      if x !in tree.dropped {
        assert x in found;
        var i :| 0 <= i < |found| && found[i] == x;
        assert PagesOf(found)[i] == p;
      }
    }
    if p in PagesOf(found) {
      var i :| 0 <= i < |found| && PagesOf(found)[i] == p;
      assert found[i] in found && found[i] in tree.Stored();
      LedgerPage(index, tree, found[i]);
    }
    forall x | x in tree.dropped ensures x.data in ps && x.bounds == x.data.extent && !IsEmpty(x.bounds) {
      LedgerPage(index, tree, x);
    }
  }

  lemma MeetingIsNotEmpty(a: MBR, b: MBR)
    requires Intersects(a, b)
    ensures !IsEmpty(b)
  {
  }

  lemma RootBounds(tree: QuadTrees.QuadTree<Page>)
    requires tree.Valid()
    ensures tree.Model().bounds == tree.root.bounds && QuadSpec.Placed(tree.Model(), tree.nodeCapacity, tree.maxDepth)
    ensures tree.Stored() == QuadSpec.All(tree.Model())
  {
  }

  /** A block and the track created for it; its object count is never filled in. */
  datatype Block = Block(blockId: nat, bounds: MBR, centroid: Point, track: DiskTrack)

  function MapBounds(blocks: seq<Block>): seq<MBR> {
    seq(|blocks|, i requires 0 <= i < |blocks| => blocks[i].bounds)
  }

  lemma SlotsCount(ps: seq<Page>)
    ensures |SlotsOf(ps)| == |AllObjects(ps)|
  {
    SlotsLocate(ps);
  }

  lemma SameBag<D>(s: seq<Entry<D>>, t: seq<Entry<D>>)
    requires multiset(s) == multiset(t)
    ensures BagOf(s) == BagOf(t)
  {
  }

  class SpatialIndex {
    const disk: DiskManager
    const sqrt: real -> real
    const blockSize: nat
    const buildQuadtree: bool
    var blockTree: KDTree<Slot>
    var pageTree: QuadTrees.QuadTree?<Page>
    var blocks: seq<Block>
    var nextObjectId: nat
    var nextBlockId: nat
    var bounds: MBR
    var isBuilt: bool

    /** Every stored object, page by page. */
    ghost function Objects(): seq<SpatialObject>
      reads disk.pool`pages, disk.pool.pages`objects
    {
      AllObjects(disk.pool.pages)
    }

    ghost predicate Valid()
      reads this`nextObjectId, this`bounds, disk, disk.pool, disk.pool.pages, disk.pool.tracks
      reads disk.allocationTree, disk.allocationTree.root, disk.allocationTree.Nodes()
    {
      && disk.Valid() && disk.TreeCurrent()
      && nextObjectId > 0 && Named(Objects()) && Boxed(Objects())
      && Within(Objects(), bounds)
      && (NonNegative(sqrt) ==> Centered(Objects()))
    }

    /** What store operations and builds change besides the index itself. */
    ghost function Parts(): set<object>
      reads disk, disk.pool, disk.allocationTree, disk.allocationTree.root
    {
      {disk, disk.pool, disk.allocationTree} + disk.allocationTree.Nodes()
      + (set p: object | p in disk.pool.pages) + (set t: object | t in disk.pool.tracks)
    }

    lemma PartsMembers()
      ensures disk in Parts() && disk.pool in Parts() && disk.allocationTree in Parts()
      ensures forall n | n in disk.allocationTree.Nodes() :: n in Parts()
      ensures forall i | 0 <= i < |disk.pool.pages| :: disk.pool.pages[i] in Parts()
      ensures forall i | 0 <= i < |disk.pool.tracks| :: disk.pool.tracks[i] in Parts()
    {
    }

    constructor (sqrt: real -> real, blockSize: nat, buildQuadtree: bool)
      ensures Valid() && BlocksCurrent() && pageTree == null && blocks == []
      ensures this.blockSize == blockSize && this.buildQuadtree == buildQuadtree
      ensures Objects() == [] && nextObjectId == 1 && bounds == EMPTY_MBR && !isBuilt
      ensures this.sqrt == sqrt
      ensures disk.strategy == BestFit && nextBlockId == 1
      ensures fresh(Parts()) && fresh(blockTree) && fresh(blockTree.Nodes())
    {
      hide Valid, BlocksCurrent, KDTree.Valid, KDTree.Stored, DiskManager.Valid, DiskManager.TreeCurrent;
      this.sqrt, this.blockSize, this.buildQuadtree := sqrt, blockSize, buildQuadtree;
      blockTree := new KDTree<Slot>();
      pageTree, blocks, nextBlockId := null, [], 1;
      disk := new DiskManager(BestFit, sqrt);
      nextObjectId, bounds, isBuilt := 1, EMPTY_MBR, false;
      new;
      EmptyIndex();
    }

    lemma EmptyIndex()
      requires disk.Valid() && disk.TreeCurrent() && disk.pool.pages == [] && nextObjectId > 0
      requires blockTree.Valid() && blockTree.Stored() == []
      ensures Valid() && BlocksCurrent() && Objects() == []
    {
      hide DiskManager.Valid, DiskManager.TreeCurrent, KDTree.Valid, KDTree.Stored;
      NoObjects(disk.pool.pages);
      SlotsNone(disk.pool.pages);
    }

    /** page is where an object at c goes: the nearest non-empty page unless full, else a new page. */
    twostate predicate PageFor(new page: Page, c: Point)
      reads disk.pool
    {
      if page in old(disk.pool.pages) then
        && disk.pool.pages == old(disk.pool.pages) && disk.pool.tracks == old(disk.pool.tracks)
        && old(RoomAt(page, c))
      else
        && disk.pool.pages == old(disk.pool.pages) + [page]
        && old(NoRoomFor(c))
    }

    /** page is a nearest one to c, and has room. */
    ghost predicate RoomAt(page: Page, c: Point)
      reads disk.pool`pages, disk.pool.pages`objects, disk.pool.pages`centroid
    {
      page in disk.pool.pages && NearestPage(page, disk.pool.pages, c) && |page.objects| < MAX_OBJECTS_PER_PAGE
    }

    /** No page can take an object at c: there is none to ask, or a nearest one is full. */
    ghost predicate NoRoomFor(c: Point)
      reads disk.pool`pages, disk.pool.pages`objects, disk.pool.pages`centroid
    {
      || (forall p | p in disk.pool.pages :: p.objects == [])
      || exists q | q in disk.pool.pages :: NearestPage(q, disk.pool.pages, c) && |q.objects| >= MAX_OBJECTS_PER_PAGE
    }

    /** The nearest page the allocation tree finds, if it has room. */
    method NearestWithRoom(c: Point) returns (page: Page?)
      requires disk.allocationTree.Valid() && disk.TreeCurrent()
      ensures if page == null then NoRoomFor(c)
              else RoomAt(page, c)
    {
      hide KDTree.Valid, KDTree.Stored, NearestPage, DistSq, BagOf, Listing;
      NothingListed(disk.allocationTree.Stored(), disk.pool.pages);
      if disk.allocationTree.size > 0 {
        var nearest := disk.allocationTree.Nearest(c);
        if nearest.Some? {
          NearestInListing(disk.allocationTree.Stored(), disk.pool.pages, nearest.value, c);
          NearestIsPage(nearest.value.data, disk.pool.pages, c);
          if !nearest.value.data.IsFull() { return nearest.value.data; }
        }
      } else {
        disk.allocationTree.EmptyTree();
      }
      return null;
    }

    method GetPageForInsert(c: Point) returns (page: Page)
      requires disk.Valid() && disk.TreeCurrent()
      modifies disk, disk.pool, disk.pool.tracks, disk.allocationTree, disk.allocationTree.Nodes()
      ensures disk.Valid()
      ensures page in disk.pool.pages && PageFor(page, c)
      ensures page !in old(disk.pool.pages) ==> fresh(page) && page.objects == []
      ensures |page.objects| < MAX_OBJECTS_PER_PAGE && Objects() == old(Objects()) && disk.Grown()
    {
      hide DiskManager.Valid, DiskManager.TreeCurrent, NearestPage, NoRoomFor, DiskManager.Allocated, AllObjects, KDTree.Valid, KDTree.Stored, BagOf, PagePool.Valid, ExpandPoint;
      DiskParts(disk);
      var found := NearestWithRoom(c);
      assert found == null ==> old(NoRoomFor(c));
      if found != null {
        NearestIsPage(found, disk.pool.pages, c);
        page := found;
      } else {
        page := disk.AllocPage(c);
      }
    }

    /** Adds o to a page of the pool that has room, and brings the page up to date. */
    method StoreInPage(page: Page, o: SpatialObject) returns (ghost at: nat)
      requires disk.pool.Valid() && page in disk.pool.pages && |page.objects| < MAX_OBJECTS_PER_PAGE
      modifies page`objects, page`extent, page`centroid
      ensures disk.pool.Valid()
      ensures page.objects == old(page.objects) + [o]
      ensures at <= |old(Objects())| && Objects() == InsertedAt(old(Objects()), at, o)
    {
      hide PagePool.Listed, PagePool.Described, Page.Consistent, AllObjects, InsertedAt;
      var pages := disk.pool.pages;
      ghost var k := page.pageId - 1;
      assert pages[k] == page && page !in pages[..k] && page !in pages[k + 1..];
      AllObjectsAt(pages, k);
      DescribedPages(disk.pool);
      ghost var before, after, os := AllObjects(pages[..k]), AllObjects(pages[k + 1..]), page.objects;
      at := |before| + |os|;
      var _ := page.AddObject(o);
      page.UpdateDerived();
      DescribedAgain(disk.pool);
      assert AllObjects(pages[..k]) == before && AllObjects(pages[k + 1..]) == after;
      AllObjectsAt(pages, k);
      AppendedToPage(before, os, after, o);
    }

    /** Finds a page for o and stores it there. */
    method StoreNear(o: SpatialObject) returns (page: Page, ghost at: nat)
      requires disk.Valid() && disk.TreeCurrent()
      modifies disk, disk.pool, disk.pool.tracks, disk.pool.pages, disk.allocationTree, disk.allocationTree.Nodes()
      ensures disk.Valid() && disk.Grown()
      ensures PageFor(page, o.centroid) && page in disk.pool.pages
      ensures page.objects == (if page in old(disk.pool.pages) then old(page.objects) else []) + [o]
      ensures forall p | p in old(disk.pool.pages) && p != page :: p.objects == old(p.objects)
      ensures at <= |old(Objects())| && Objects() == InsertedAt(old(Objects()), at, o)
    {
      hide DiskManager.TreeCurrent, DiskManager.Valid, PagePool.Valid, RoomAt, NoRoomFor, AllObjects, InsertedAt, KDTree.Valid;
      page := GetPageForInsert(o.centroid);
      DiskParts(disk);
      ghost var nodes := disk.allocationTree.Nodes();
      at := StoreInPage(page, o);
      DiskParts(disk);
    }

    /** Finds a page for o, stores it there, and takes it into the bounds. */
    method Place(o: SpatialObject) returns (page: Page, ghost at: nat)
      requires Valid()
      requires o.id > 0 && BoxedOne(o) && (NonNegative(sqrt) && PointOrLine(o) ==> ContainsPoint(o.mbr, o.centroid))
      modifies this`bounds, this`isBuilt
      modifies disk, disk.pool, disk.pool.tracks, disk.pool.pages, disk.allocationTree, disk.allocationTree.Nodes()
      ensures Valid() && !isBuilt && bounds == ExpandMBR(old(bounds), o.mbr)
      ensures fresh(disk.allocationTree) && fresh(disk.allocationTree.Nodes())
      ensures PageFor(page, o.centroid) && page in disk.pool.pages && disk.Grown()
      ensures page.objects == (if page in old(disk.pool.pages) then old(page.objects) else []) + [o]
      ensures forall p | p in old(disk.pool.pages) && p != page :: p.objects == old(p.objects)
      ensures at <= |old(Objects())| && Objects() == InsertedAt(old(Objects()), at, o)
    {
      hide DiskManager.TreeCurrent, DiskManager.Valid, PagePool.Valid, RoomAt, NoRoomFor, AllObjects, InsertedAt, Within, Named, Boxed, Centered, NonNegative, PointOrLine, ContainsPoint, ExpandMBR, KDTree.Valid, BoxedOne;
      ghost var before := Objects();
      page, at := StoreNear(o);
      DiskParts(disk);
      disk.RebuildAllocationTree();
      DiskParts(disk);
      WithinInserted(before, bounds, at, o);
      NamedInserted(before, at, o);
      BoxedInserted(before, at, o);
      if NonNegative(sqrt) { CenteredInserted(before, at, o); }
      ghost var nodes := disk.allocationTree.Nodes();
      bounds := ExpandMBR(bounds, o.mbr);
      isBuilt := false;
    }

    /** Gives obj an id if it has none, and its centroid and rectangle. */
    method Prepare(obj: SpatialObject) returns (o: SpatialObject)
      requires Valid()
      modifies this`nextObjectId
      ensures Valid() && nextObjectId == old(nextObjectId) + if obj.id == 0 then 1 else 0
      ensures o == Derived(sqrt, obj.(id := IdOf(obj, old(nextObjectId)))) && o.id > 0 && BoxedOne(o)
      ensures o == Derived(sqrt, obj).(id := IdOf(Derived(sqrt, obj), old(nextObjectId)))
      ensures NonNegative(sqrt) && PointOrLine(o) ==> ContainsPoint(o.mbr, o.centroid)
    {
      hide DiskManager.Valid, DiskManager.TreeCurrent, Within, Named, Boxed, Centered, NonNegative, ContainsPoint, PointOrLine, Derived, AllObjects, BoxedOne;
      ghost var nodes := disk.allocationTree.Nodes();
      o := obj;
      if o.id == 0 {
        o := o.(id := nextObjectId);
        nextObjectId := nextObjectId + 1;
      }
      DerivedIgnoresId(sqrt, obj, o.id);
      DerivedIsBoxed(sqrt, o);
      DerivedKeepsId(sqrt, obj);
      DerivedKeepsId(sqrt, o);
      if NonNegative(sqrt) && PointOrLine(o) { DerivedCentroidInside(sqrt, o); }
      var _, derived := UpdateDerived(sqrt, o);
      o := derived;
    }

    /** Stores obj, under a new id if it has none. */
    method Insert(obj: SpatialObject) returns (stored: SpatialObject, ghost page: Page, ghost at: nat)
      requires Valid()
      modifies this`nextObjectId, this`bounds, this`isBuilt
      modifies disk, disk.pool, disk.pool.tracks, disk.pool.pages, disk.allocationTree, disk.allocationTree.Nodes()
      ensures Valid() && !isBuilt
      ensures disk.Grown() && fresh(disk.allocationTree) && fresh(disk.allocationTree.Nodes())
      ensures stored == Derived(sqrt, obj.(id := IdOf(obj, old(nextObjectId))))
      ensures nextObjectId == old(nextObjectId) + if obj.id == 0 then 1 else 0
      ensures bounds == ExpandMBR(old(bounds), stored.mbr)
      ensures PageFor(page, stored.centroid)
      ensures page in disk.pool.pages
      ensures page.objects == (if page in old(disk.pool.pages) then old(page.objects) else []) + [stored]
      ensures forall p | p in old(disk.pool.pages) && p != page :: p.objects == old(p.objects)
      ensures at <= |old(Objects())| && Objects() == InsertedAt(old(Objects()), at, stored)
      ensures Step(old(Objects()), old(nextObjectId), Op.Insert(Derived(sqrt, obj)), Objects())
    {
      hide Step, Valid, RoomAt, NoRoomFor, NonNegative, ContainsPoint, PointOrLine, BoxedOne, Derived, AllObjects, InsertedAt, ExpandMBR, KDTree.Valid, KDTree.Stored;
      ghost var before, nodes := Objects(), disk.allocationTree.Nodes();
      stored := Prepare(obj);
      page, at := Place(stored);
      assert PageFor(page, stored.centroid);
      InsertIsStep(before, old(nextObjectId), Derived(sqrt, obj), at);
    }

    /** The first page holding id, or null. */
    method FindPageForObject(id: nat) returns (page: Page?)
      ensures var ps := disk.pool.pages;
        var k := PageWith(ps, id);
        page == if k < |ps| then ps[k] else null
    {
      hide IndexOfId, PageWith;
      var pages := disk.pool.pages;
      for i := 0 to |pages|
        invariant PageWith(pages, id) == i + PageWith(pages[i..], id)
      {
        PageWithHead(pages[i..], id);
        var found := pages[i].FindObject(id);
        if found.Some? { return pages[i]; }
        assert pages[i..][1..] == pages[i + 1..];
      }
      PageWithNone(pages[|pages|..], id);
      return null;
    }

    /** Takes id out of a page of the pool and brings the page up to date. */
    method RemoveFromPage(page: Page, ghost k: nat, id: nat) returns (found: bool)
      requires disk.pool.Valid() && k < |disk.pool.pages| && disk.pool.pages[k] == page
      modifies page`objects, page`extent, page`centroid
      ensures disk.pool.Valid()
      ensures var i := IndexOfId(old(page.objects), id);
        && (found <==> i < |old(page.objects)|)
        && (found ==> |old(AllObjects(disk.pool.pages[..k]))| + i < |old(Objects())| &&
                      Objects() == Without(old(Objects()), |old(AllObjects(disk.pool.pages[..k]))| + i))
        && (!found ==> Objects() == old(Objects()))
    {
      hide PagePool.Listed, PagePool.Described, Page.Consistent, AllObjects, Without, IndexOfId;
      var pages := disk.pool.pages;
      assert pages[k] == page && page !in pages[..k] && page !in pages[k + 1..];
      AllObjectsAt(pages, k);
      DescribedPages(disk.pool);
      ghost var before, after, os := AllObjects(pages[..k]), AllObjects(pages[k + 1..]), page.objects;
      PageSize(page);
      found := page.RemoveObject(id);
      page.UpdateDerived();
      DescribedAgain(disk.pool);
      assert AllObjects(pages[..k]) == before && AllObjects(pages[k + 1..]) == after;
      AllObjectsAt(pages, k);
      if found { RemovedFromPage(before, os, after, IndexOfId(os, id)); }
    }

    /** Removes an object that page k holds. */
    method TakeOut(page: Page, ghost k: nat, id: nat, ghost i: nat)
      requires Valid() && k < |disk.pool.pages| && disk.pool.pages[k] == page
      requires IndexOfId(page.objects, id) < |page.objects|
      requires i == |AllObjects(disk.pool.pages[..k])| + IndexOfId(page.objects, id)
      modifies this`isBuilt, disk`allocationTree, page`objects, page`extent, page`centroid
      ensures Valid() && !isBuilt
      ensures fresh(disk.allocationTree) && fresh(disk.allocationTree.Nodes())
      ensures i < |old(Objects())| && Objects() == Without(old(Objects()), i)
    {
      hide PagePool.Valid, DiskManager.Valid, DiskManager.TreeCurrent, KDTree.Valid, AllObjects, Without, IndexOfId, Within, Named, Boxed, Centered, NonNegative;
      ghost var objects := Objects();
      DiskParts(disk);
      var _ := RemoveFromPage(page, k, id);
      disk.RebuildAllocationTree();
      DiskParts(disk);
      ghost var nodes := disk.allocationTree.Nodes();
      isBuilt := false;
      if NonNegative(sqrt) { CenteredRemoved(objects, i); }
      WithinRemoved(objects, bounds, i);
      NamedRemoved(objects, i);
      BoxedRemoved(objects, i);
    }

    /** Removes the first object with this id. */
    method Remove(id: nat) returns (ok: bool)
      requires Valid()
      modifies this`isBuilt, disk`allocationTree, disk.pool.pages`objects, disk.pool.pages`extent, disk.pool.pages`centroid
      ensures Valid()
      ensures var i := IndexOfId(old(Objects()), id);
        && (ok <==> i < |old(Objects())|)
        && (ok ==> Objects() == Without(old(Objects()), i) && !isBuilt)
        && (!ok ==> Objects() == old(Objects()) && isBuilt == old(isBuilt) && disk.allocationTree == old(disk.allocationTree))
      ensures ok ==> fresh(disk.allocationTree) && fresh(disk.allocationTree.Nodes())
      ensures Step(old(Objects()), nextObjectId, Op.Remove(id), Objects())
    {
      hide Step, PagePool.Valid, DiskManager.Valid, DiskManager.TreeCurrent, KDTree.Valid, AllObjects, Without, IndexOfId, PageWith, Within, Named, Boxed, Centered, NonNegative;
      ghost var nodes := disk.allocationTree.Nodes();
      var page := FindPageForObject(id);
      PageWithIsFirst(disk.pool.pages, id);
      RemoveIsStep(Objects(), nextObjectId, id);
      if page == null { return false; }
      TakeOut(page, PageWith(disk.pool.pages, id), id, IndexOfId(Objects(), id));
      return true;
    }

    /** Replaces the first object with this id: removed, then inserted afresh under the same id. */
    method Update(id: nat, newObj: SpatialObject) returns (ok: bool, ghost at: nat)
      requires Valid()
      modifies this`nextObjectId, this`bounds, this`isBuilt
      modifies disk, disk.pool, disk.pool.tracks, disk.pool.pages, disk.allocationTree, disk.allocationTree.Nodes()
      ensures Valid() && nextObjectId == old(nextObjectId) && disk.Grown()
      ensures ok <==> IndexOfId(old(Objects()), id) < |old(Objects())|
      ensures !ok ==> disk.pool.pages == old(disk.pool.pages) && Objects() == old(Objects()) && isBuilt == old(isBuilt)
      ensures !ok ==> disk.allocationTree == old(disk.allocationTree) && disk.allocationTree.Nodes() == old(disk.allocationTree.Nodes())
      ensures ok ==> fresh(disk.allocationTree) && fresh(disk.allocationTree.Nodes())
      ensures ok ==>
        var rest := Without(old(Objects()), IndexOfId(old(Objects()), id));
        at <= |rest| && !isBuilt && Objects() == InsertedAt(rest, at, Derived(sqrt, newObj.(id := id)))
      ensures Step(old(Objects()), nextObjectId, Op.Update(id, Derived(sqrt, newObj)), Objects())
    {
      hide Step, DiskManager.Valid, DiskManager.TreeCurrent, Within, Named, Boxed, Centered, NonNegative, Derived, AllObjects, InsertedAt, Without, IndexOfId, PageFor;
      ghost var before, x := Objects(), Derived(sqrt, newObj);
      NamedHasNoZero(before);
      DerivedIgnoresId(sqrt, newObj, id);
      ghost var nodes := disk.allocationTree.Nodes();
      at := 0;
      ok := Remove(id);
      if !ok {
        MissIsStep(before, nextObjectId, id, x);
        return;
      }
      var stored, page, place := Insert(newObj.(id := id));
      at := place;
      UpdateIsStep(before, nextObjectId, id, x, at);
    }

    /** The first object with this id. */
    method Get(id: nat) returns (found: Option<SpatialObject>)
      ensures var i := IndexOfId(Objects(), id);
        found == if i < |Objects()| then Some(Objects()[i]) else None
    {
      hide IndexOfId, AllObjects;
      var pages := disk.pool.pages;
      NoObjects(pages[..0]);
      for i := 0 to |pages|
        invariant IndexOfId(AllObjects(pages[..i]), id) == |AllObjects(pages[..i])|
      {
        AllObjectsAt(pages, i);
        IndexOfIdConcat(AllObjects(pages[..i]), pages[i].objects, id);
        IndexOfIdConcat(AllObjects(pages[..i]) + pages[i].objects, AllObjects(pages[i + 1..]), id);
        assert pages[..i + 1] == pages[..i] + [pages[i]];
        AllObjectsLast(pages[..i], pages[i]);
        found := pages[i].FindObject(id);
        if found.Some? { return; }
      }
      assert pages[..|pages|] == pages;
      return None;
    }

    /** Every object whose rectangle meets range, in storage order, by way of the pages that meet it. */
    method QueryRange(range: MBR) returns (result: seq<SpatialObject>)
      requires disk.pool.Valid()
      ensures result == Filter(Objects(), Meets(range))
    {
      hide Intersects, AllObjects, PagesMeeting, Filter, PagePool.Listed, Page.Consistent;
      result := [];
      var pages := disk.pool.QueryRegion(range);
      NoObjects(pages[..0]);
      FilterNone<SpatialObject>([], Meets(range));
      for i := 0 to |pages|
        invariant result == Filter(AllObjects(pages[..i]), Meets(range))
      {
        assert pages[..i + 1] == pages[..i] + [pages[i]];
        AllObjectsLast(pages[..i], pages[i]);
        FilterConcat(AllObjects(pages[..i]), pages[i].objects, Meets(range));
        result := AddMeeting(pages[i].objects, range, result);
      }
      assert pages[..|pages|] == pages;
      TwoLevelIsScan(disk.pool.pages, range);
    }

    method QueryPoint(p: Point) returns (result: seq<SpatialObject>)
      requires disk.pool.Valid()
      ensures result == Filter(Objects(), (o: SpatialObject) => ContainsPoint(o.mbr, p))
    {
      result := QueryRange(MBR(p.x, p.y, p.x, p.y));
      FilterSame(Objects(), Meets(MBR(p.x, p.y, p.x, p.y)), (o: SpatialObject) => ContainsPoint(o.mbr, p));
    }

    // ---------- Building and the queries that need it ----------

    /** The block tree holds one entry for each object now stored. */
    ghost predicate BlocksCurrent()
      reads this`blockTree, disk.pool`pages, disk.pool.pages`objects, blockTree, blockTree.root, blockTree.Nodes()
    {
      blockTree.Valid() && BagOf(blockTree.Stored()) == BagOf(SlotsOf(disk.pool.pages))
    }

    /** One entry for each object, at its centroid. */
    method CollectPoints() returns (points: seq<Entry<Slot>>)
      ensures points == SlotsOf(disk.pool.pages)
    {
      hide SlotsOf;
      points := [];
      SlotsNone(disk.pool.pages[..0]);
      for i := 0 to |disk.pool.pages|
        invariant points == SlotsOf(disk.pool.pages[..i])
      {
        var page := disk.pool.pages[i];
        ghost var before := points;
        for j := 0 to |page.objects|
          invariant points == before + PageSlots(page, j)
        {
          points := points + [Entry(page.objects[j].centroid, page.objects[j].id, Slot(page, j))];
        }
        SlotsNext(disk.pool.pages, i);
      }
      assert disk.pool.pages[..|disk.pool.pages|] == disk.pool.pages;
    }

    /** A block over b, with a track of its own. */
    method CreateBlock(b: MBR)
      requires disk.pool.Valid() && disk.trackCount == |disk.pool.tracks|
      modifies this`blocks, this`nextBlockId, disk`trackCount, disk.pool`tracks, disk.pool`nextTrackId
      ensures disk.pool.Valid() && disk.trackCount == |disk.pool.tracks|
      ensures nextBlockId == old(nextBlockId) + 1
      ensures |disk.pool.tracks| == |old(disk.pool.tracks)| + 1 && old(disk.pool.tracks) <= disk.pool.tracks && disk.Grown()
      ensures blocks == old(blocks) + [Block(old(nextBlockId), b, Center(b), disk.pool.tracks[|old(disk.pool.tracks)|])]
    {
      hide PagePool.Valid;
      var track := disk.CreateTrack();
      blocks := blocks + [Block(nextBlockId, b, Center(b), track)];
      nextBlockId := nextBlockId + 1;
    }

    /** Blocks for all of bs, in order, with new ids and new tracks. */
    method CreateBlocks(bs: seq<MBR>)
      requires disk.pool.Valid() && disk.trackCount == |disk.pool.tracks|
      modifies this`blocks, this`nextBlockId, disk`trackCount, disk.pool`tracks, disk.pool`nextTrackId
      ensures disk.pool.Valid() && disk.trackCount == |disk.pool.tracks|
      ensures nextBlockId == old(nextBlockId) + |bs|
      ensures |disk.pool.tracks| == |old(disk.pool.tracks)| + |bs| && old(disk.pool.tracks) <= disk.pool.tracks && disk.Grown()
      ensures |blocks| == |bs| && forall i | 0 <= i < |bs| ::
        blocks[i] == Block(old(nextBlockId) + i, bs[i], Center(bs[i]), disk.pool.tracks[|old(disk.pool.tracks)| + i])
    {
      hide PagePool.Valid;
      blocks := [];
      for i := 0 to |bs|
        invariant disk.pool.Valid() && disk.trackCount == |disk.pool.tracks|
        invariant nextBlockId == old(nextBlockId) + i && |blocks| == i
        invariant |disk.pool.tracks| == |old(disk.pool.tracks)| + i && old(disk.pool.tracks) <= disk.pool.tracks && disk.Grown()
        invariant forall j | 0 <= j < i ::
          blocks[j] == Block(old(nextBlockId) + j, bs[j], Center(bs[j]), disk.pool.tracks[|old(disk.pool.tracks)| + j])
      {
        CreateBlock(bs[i]);
      }
    }

    /** A fresh quadtree over the non-empty pages, if the index is to have one. */
    method BuildPageQuadtree() returns (tree: QuadTrees.QuadTree?<Page>)
      ensures !buildQuadtree ==> tree == pageTree
      ensures buildQuadtree && disk.pool.pages == [] ==> tree == null
      ensures buildQuadtree && disk.pool.pages != [] ==>
        && tree != null && fresh(tree) && fresh(tree.Nodes()) && tree.Valid()
        && tree.root.bounds == bounds && tree.nodeCapacity == 8 && tree.maxDepth == QuadTrees.QT_MAX_DEPTH
        && Ledger(tree) == ItemBag(PageItems(disk.pool.pages, bounds))
    {
      hide QuadTrees.QuadTree.Valid, Ledger, ItemBag, PageItems, Intersects;
      if !buildQuadtree { return pageTree; }
      if |disk.pool.pages| == 0 { return null; }
      tree := new QuadTrees.QuadTree<Page>(bounds, 8, QuadTrees.QT_MAX_DEPTH);
      var pages := disk.pool.pages;
      PageItemsNone(pages[..0], bounds);
      EmptyLedger(tree);
      for i := 0 to |pages|
        invariant tree != null && fresh(tree) && fresh(tree.Nodes()) && tree.Valid()
        invariant tree.root.bounds == bounds && tree.nodeCapacity == 8 && tree.maxDepth == QuadTrees.QT_MAX_DEPTH
        invariant Ledger(tree) == ItemBag(PageItems(pages[..i], bounds))
      {
        PageItemsNext(pages, i, bounds);
        InsertPage(tree, pages[i], PageItems(pages[..i], bounds));
      }
      assert pages[..|pages|] == pages;
    }

    /** A new block tree over the objects. */
    method LoadBlockTree()
      requires Objects() != []
      modifies this`blockTree
      ensures BlocksCurrent() && fresh(blockTree) && fresh(blockTree.Nodes()) && Built(blockTree.Model(), 0)
    {
      hide KDTree.Valid, KDTree.Stored, Built, BagOf, SlotsOf, AllObjects;
      var points := CollectPoints();
      SlotsCount(disk.pool.pages);
      blockTree := new KDTree<Slot>();
      blockTree.BulkLoad(points);
      SameBag(blockTree.Stored(), points);
    }

    /** Loads the block tree with the objects and cuts it into blocks. */
    method BuildBlocks()
      requires disk.pool.Valid() && disk.trackCount == |disk.pool.tracks| && Objects() != []
      modifies this`blockTree, this`blocks, this`nextBlockId, disk`trackCount, disk.pool`tracks, disk.pool`nextTrackId
      ensures disk.pool.Valid() && disk.trackCount == |disk.pool.tracks| && disk.Grown()
      ensures BlocksCurrent() && fresh(blockTree) && fresh(blockTree.Nodes()) && Built(blockTree.Model(), 0)
      ensures |disk.pool.tracks| == |old(disk.pool.tracks)| + |blocks| && old(disk.pool.tracks) <= disk.pool.tracks
      ensures nextBlockId == old(nextBlockId) + |blocks|
      ensures var bs := Blocks(blockTree.Model(), blockSize);
        && |blocks| == |bs|
        && forall i | 0 <= i < |bs| ::
             blocks[i] == Block(old(nextBlockId) + i, bs[i], Center(bs[i]), disk.pool.tracks[|old(disk.pool.tracks)| + i])
    {
      hide KDTree.Valid, KDTree.Stored, Built, BagOf, Blocks, SlotsOf, AllObjects, PagePool.Valid;
      LoadBlockTree();
      var bs := blockTree.Partition(blockSize);
      ghost var nodes := blockTree.Nodes();
      CreateBlocks(bs);
    }

    /** Indexes the stored objects.  With none stored only the flag changes: a block tree that still
        holds entries of removed objects stays behind. */
    method Build()
      requires Valid()
      modifies this`blockTree, this`blocks, this`nextBlockId, this`pageTree, this`isBuilt
      modifies disk`trackCount, disk.pool`tracks, disk.pool`nextTrackId
      ensures Valid() && isBuilt && Objects() == old(Objects()) && disk.Grown()
      ensures old(blockTree.Valid()) ==>
        blockTree.Valid() && (BlocksCurrent() <==> Objects() != [] || old(blockTree.Stored()) == [])
      ensures Objects() == [] ==>
        && blockTree == old(blockTree) && blocks == old(blocks) && pageTree == old(pageTree)
        && disk.pool.tracks == old(disk.pool.tracks)
      ensures Objects() != [] ==> BlocksCurrent() && fresh(blockTree) && fresh(blockTree.Nodes()) && Built(blockTree.Model(), 0)
      ensures Objects() != [] ==> MapBounds(blocks) == Blocks(blockTree.Model(), blockSize)
      ensures Objects() != [] && buildQuadtree ==>
        && pageTree != null && fresh(pageTree) && fresh(pageTree.Nodes()) && pageTree.Valid() && pageTree.root.bounds == bounds
        && Ledger(pageTree) == ItemBag(PageItems(disk.pool.pages, bounds))
    {
      hide KDTree.Valid, KDTree.Stored, Built, BagOf, Blocks, MapBounds, SlotsOf, AllObjects, Valid;
      hide Ledger, ItemBag, PageItems, QuadTrees.QuadTree.Valid;
      ghost var nodes, blockNodes, stored := disk.allocationTree.Nodes(), blockTree.Nodes(), blockTree.Stored();
      if disk.pool.pages == [] { NoObjects(disk.pool.pages); }
      var total := disk.pool.ObjectCount();
      if total == 0 {
        NothingCurrent(stored, disk.pool.pages);
        isBuilt := true;
        assert blockTree.Stored() == stored;
        return;
      }
      BuildAll();
    }

    /** A build with objects: the block tree, its blocks, the page quadtree and the flag. */
    method BuildAll()
      requires Valid() && Objects() != []
      modifies this`blockTree, this`blocks, this`nextBlockId, this`pageTree, this`isBuilt
      modifies disk`trackCount, disk.pool`tracks, disk.pool`nextTrackId
      ensures Valid() && isBuilt && disk.Grown()
      ensures BlocksCurrent() && fresh(blockTree) && fresh(blockTree.Nodes()) && Built(blockTree.Model(), 0)
      ensures MapBounds(blocks) == Blocks(blockTree.Model(), blockSize)
      ensures buildQuadtree ==>
        && pageTree != null && fresh(pageTree) && fresh(pageTree.Nodes()) && pageTree.Valid() && pageTree.root.bounds == bounds
        && Ledger(pageTree) == ItemBag(PageItems(disk.pool.pages, bounds))
    {
      hide KDTree.Valid, KDTree.Stored, Built, BagOf, Blocks, SlotsOf, AllObjects, PagePool.Valid, DiskManager.Valid;
      hide Within, Named, Boxed, Centered, NonNegative, Ledger, ItemBag, PageItems, QuadTrees.QuadTree.Valid, DiskManager.TreeCurrent;
      ghost var nodes := disk.allocationTree.Nodes();
      if disk.pool.pages == [] { NoObjects(disk.pool.pages); }
      DiskParts(disk);
      BuildBlocks();
      DiskParts(disk);
      FinishBuild();
    }

    /** The last steps of a build: the page quadtree and the flag. */
    method FinishBuild()
      requires Valid() && BlocksCurrent()
      modifies this`pageTree, this`isBuilt
      ensures Valid() && BlocksCurrent() && isBuilt
      ensures buildQuadtree && disk.pool.pages != [] ==>
        && pageTree != null && fresh(pageTree) && fresh(pageTree.Nodes()) && pageTree.Valid() && pageTree.root.bounds == bounds
        && Ledger(pageTree) == ItemBag(PageItems(disk.pool.pages, bounds))
    {
      hide KDTree.Valid, BagOf, SlotsOf, AllObjects, DiskManager.Valid, DiskManager.TreeCurrent;
      hide Within, Named, Boxed, Centered, NonNegative, Ledger, ItemBag, PageItems, QuadTrees.QuadTree.Valid;
      ghost var nodes, blockNodes := disk.allocationTree.Nodes(), blockTree.Nodes();
      pageTree := BuildPageQuadtree();
      isBuilt := true;
    }

    /** What the slots of the k entries nearest to p hold now; asking for none leaves the result as it was.
        While the block tree is current these are the objects of the k nearest entries. */
    method QueryKnn(p: Point, k: nat, result: seq<SpatialObject>)
      returns (ok: bool, found: seq<SpatialObject>, ghost items: seq<Entry<Slot>>)
      requires blockTree.Valid() && forall e | e in blockTree.Stored() :: e.data.index < |e.data.page.objects|
      ensures ok <==> k == 0 || blockTree.Stored() != []
      ensures k == 0 ==> found == result
      ensures !ok ==> found == []
      ensures ok && k > 0 ==> |found| == |items| && forall i | 0 <= i < |items| ::
        && items[i] in blockTree.Stored()
        && items[i].data.index < |items[i].data.page.objects|
        && found[i] == items[i].data.page.objects[items[i].data.index]
      ensures ok && k > 0 && AllFinite(blockTree.Stored()) ==> KNearest(items, blockTree.Stored(), p, k)
    {
      hide KDTree.Valid, KDTree.Stored, KNearest, Finite;
      items := [];
      if k == 0 { return true, result, []; }
      found := [];
      ghost var nodes, stored := blockTree.Nodes(), blockTree.Stored();
      forall j | 0 <= j < |stored| ensures allocated(stored[j].data.page) {
        assert allocated(stored) && allocated(stored[j]) && allocated(stored[j].data);
      }
      var kdResult := new KDQueryResult<Slot>();
      ok := blockTree.KNearestQuery(p, k, kdResult);
      if !ok { return; }
      items := kdResult.items;
      forall j | 0 <= j < |items| ensures items[j] in stored { assert items[j] in items; }
      for i := 0 to |kdResult.items|
        invariant kdResult.items == items && |found| == i
        invariant forall j | 0 <= j < |items| :: items[j] in stored && items[j].data.index < |items[j].data.page.objects|
        invariant forall j | 0 <= j < i :: found[j] == items[j].data.page.objects[items[j].data.index]
      {
        var slot := kdResult.items[i].data;
        found := found + [slot.page.objects[slot.index]];
      }
    }

    /** The pages whose extent lies within the tolerance of region, by way of a page tree built on first use. */
    method FindAdjacentPages(region: MBR) returns (built: bool, found: seq<Page>, trackIds: seq<nat>)
      requires pageTree != null ==> pageTree.Valid()
      modifies this`pageTree
      ensures built <==> pageTree != null
      ensures pageTree != old(pageTree) ==> old(pageTree) == null && fresh(pageTree) && fresh(pageTree.Nodes())
      ensures built ==> pageTree.Valid() && found == PagesOf(QuadSpec.AdjacentIn(pageTree.Model(), region))
      ensures !built ==> found == [] && trackIds == []
      ensures |trackIds| == |found| && forall i | 0 <= i < |found| :: trackIds[i] == found[i].trackId
      ensures built && old(pageTree) == null ==>
        pageTree.root.bounds == bounds && Ledger(pageTree) == ItemBag(PageItems(disk.pool.pages, bounds))
    {
      hide QuadTrees.QuadTree.Valid, QuadSpec.AdjacentIn, Ledger, ItemBag, PageItems;
      if pageTree == null { pageTree := BuildPageQuadtree(); }
      if pageTree == null { return false, [], []; }
      var result := new QuadTrees.QTQueryResult<Page>();
      pageTree.FindAdjacentToRegion(region, result);
      found := PagesOf(result.items);
      trackIds := seq(|found|, i requires 0 <= i < |found| reads found => found[i].trackId);
      built := true;
    }

    /** The first block whose bounds contain p. */
    method GetBlock(p: Point) returns (found: Option<Block>)
      ensures match found
        case None => forall b | b in blocks :: !ContainsPoint(b.bounds, p)
        case Some(b) => exists i | 0 <= i < |blocks| ::
          blocks[i] == b && ContainsPoint(b.bounds, p) && forall j | 0 <= j < i :: !ContainsPoint(blocks[j].bounds, p)
    {
      for i := 0 to |blocks|
        invariant forall j | 0 <= j < i :: !ContainsPoint(blocks[j].bounds, p)
      {
        if ContainsPoint(blocks[i].bounds, p) { return Some(blocks[i]); }
      }
      return None;
    }
  }

  // ---------- Runs of operations on an index ----------

  /** What a caller may ask of an index: an operation on the store, or a build. */
  datatype Command = Perform(op: Op) | Rebuild

  /** The operation as the index carries it out: on objects with centroid and rectangle derived. */
  function DerivedOp(sqrt: real -> real, op: Op): Op {
    match op
    case Insert(x) => Op.Insert(Derived(sqrt, x))
    case Remove(_) => op
    case Update(id, x) => Op.Update(id, Derived(sqrt, x))
  }

  function OpsOf(sqrt: real -> real, commands: seq<Command>): seq<Op> {
    if commands == [] then []
    else
      var n := |commands| - 1;
      OpsOf(sqrt, commands[..n]) + if commands[n].Perform? then [DerivedOp(sqrt, commands[n].op)] else []
  }

  lemma OpsNext(sqrt: real -> real, commands: seq<Command>, i: nat)
    requires i < |commands|
    ensures OpsOf(sqrt, commands[..i + 1])
         == if commands[i].Perform? then OpsOf(sqrt, commands[..i]) + [DerivedOp(sqrt, commands[i].op)]
            else OpsOf(sqrt, commands[..i])
  {
    assert commands[..i + 1][..i] == commands[..i];
  }

  lemma DerivedOpKeepsId(sqrt: real -> real, op: Op)
    ensures DerivedOp(sqrt, op).Insert? == op.Insert?
    ensures op.Insert? ==> DerivedOp(sqrt, op).x.id == op.x.id
  {
    hide Derived;
    if op.Insert? { DerivedKeepsId(sqrt, op.x); }
  }

  lemma NoRun(sqrt: real -> real)
    ensures Run([[]], []) && NextId([]) == 1 && OpsOf(sqrt, []) == []
  {
  }

  /** Carries out one operation on the store of an index. */
  method Execute(index: SpatialIndex, op: Op)
    requires index.Valid()
    modifies index, index.Parts()
    ensures index.Valid() && forall x | x in index.Parts() :: x in old(index.Parts()) || fresh(x)
    ensures Step(old(index.Objects()), old(index.nextObjectId), DerivedOp(index.sqrt, op), index.Objects())
    ensures index.nextObjectId == old(index.nextObjectId) + if op.Insert? && op.x.id == 0 then 1 else 0
  {
    hide Step, SpatialIndex.Valid, SpatialIndex.PageFor, Derived, AllObjects, InsertedAt, Without, IndexOfId, ExpandMBR;
    ghost var nodes := index.disk.allocationTree.Nodes();
    match op
    case Insert(x) => var _, _, _ := index.Insert(x);
    case Remove(id) => var _ := index.Remove(id);
    case Update(id, x) => var _, _ := index.Update(id, x);
  }

  /** Builds an index, for a caller that knows it by its parts. */
  method Reindex(index: SpatialIndex)
    requires index.Valid()
    modifies index, index.Parts()
    ensures index.Valid() && forall x | x in index.Parts() :: x in old(index.Parts()) || fresh(x)
    ensures index.Objects() == old(index.Objects()) && index.nextObjectId == old(index.nextObjectId)
  {
    hide SpatialIndex.Valid, AllObjects, SpatialIndex.BlocksCurrent, Built, Blocks, MapBounds, Ledger, ItemBag, PageItems;
    ghost var nodes := index.disk.allocationTree.Nodes();
    index.Build();
  }

  /** Carries out commands on a new index.  If no insert brings an id then in use, the objects stored
      are in the end exactly the abstract map. */
  method ExecuteAll(sqrt: real -> real, blockSize: nat, buildQuadtree: bool, commands: seq<Command>)
    returns (index: SpatialIndex, ghost os: seq<seq<SpatialObject>>)
    ensures fresh(index) && (forall x | x in index.Parts() :: fresh(x)) && index.Valid() && index.sqrt == sqrt
    ensures var ops := OpsOf(sqrt, commands);
      && Run(os, ops) && os[|ops|] == index.Objects() && index.nextObjectId == NextId(ops)
      && (AllClear(ops) ==> Keyed(index.Objects()) && Contents(index.Objects()) == AppliedAll(ops))
  {
    hide Step, SpatialIndex.Valid, SpatialIndex.Parts, SpatialIndex.BlocksCurrent, AllObjects, DerivedOp, OpsOf;
    hide Contents, AppliedAll, AllClear, Keyed, NextId;
    index := new SpatialIndex(sqrt, blockSize, buildQuadtree);
    os := [[]];
    ghost var ops := [];
    NoRun(sqrt);
    assert commands[..0] == [];
    for i := 0 to |commands|
      invariant fresh(index) && (forall x | x in index.Parts() :: fresh(x)) && index.Valid() && index.sqrt == sqrt
      invariant |os| == |ops| + 1 && ops == OpsOf(sqrt, commands[..i])
      invariant Run(os, ops) && os[|ops|] == index.Objects() && index.nextObjectId == NextId(ops)
    {
      OpsNext(sqrt, commands, i);
      if commands[i].Rebuild? {
        Reindex(index);
      } else {
        Execute(index, commands[i].op);
        ghost var op := DerivedOp(sqrt, commands[i].op);
        DerivedOpKeepsId(sqrt, commands[i].op);
        RunNext(os, ops, op, index.Objects());
        ops, os := ops + [op], os + [index.Objects()];
      }
    }
    assert commands[..|commands|] == commands;
    RunRefinesMap(os, ops);
  }

  /** A build and then a k-nearest query, while ids are unique: min(k, n) distinct stored objects, closest
      first, and no object left out is closer than one returned. */
  method BuildAndQueryKnn(index: SpatialIndex, p: Point, k: nat) returns (ok: bool, found: seq<SpatialObject>)
    requires index.Valid() && Keyed(index.Objects()) && forall o | o in index.Objects() :: Finite(o.centroid)
    requires index.Objects() != [] || (index.blockTree.Valid() && index.blockTree.Stored() == [])
    modifies index, index.Parts()
    ensures index.Valid() && index.Objects() == old(index.Objects())
    ensures ok <==> k == 0 || index.Objects() != []
    ensures |found| == if k < |index.Objects()| then k else |index.Objects()|
    ensures forall o | o in found :: o in index.Objects()
    ensures forall i, j | 0 <= i < j < |found| ::
      found[i].id != found[j].id && DistSq(p, found[i].centroid) <= DistSq(p, found[j].centroid)
    ensures forall o, r | o in index.Objects() && o !in found && r in found ::
      DistSq(p, r.centroid) <= DistSq(p, o.centroid)
  {
    hide SpatialIndex.Valid, AllObjects, SlotsOf, Stands, Keyed, Finite, DistSq, KNearest, AllFinite, BagOf;
    hide KDTree.Valid, KDTree.Stored, Built, Blocks, MapBounds, Ledger, ItemBag, PageItems, QuadTrees.QuadTree.Valid;
    ghost var nodes := index.blockTree.Nodes();
    index.Build();
    nodes := index.blockTree.Nodes();
    CurrentSlots(index);
    ghost var items;
    ok, found, items := index.QueryKnn(p, k, []);
    if ok && k > 0 {
      CurrentSlots(index);
      KnnMeaning(index.disk.pool.pages, items, found, p, k);
    }
  }

  lemma FirstStored(nextId: nat, x: SpatialObject, os: seq<SpatialObject>)
    requires Step([], nextId, Op.Insert(x), os)
    ensures |os| == 1 && os[0].id == IdOf(x, nextId) && IndexOfId(os, os[0].id) == 0
    ensures Without(os, 0) == []
  {
  }

  /** A built index with one object. */
  method BuildWithOne(sqrt: real -> real, blockSize: nat, buildQuadtree: bool, x: SpatialObject)
    returns (index: SpatialIndex)
    ensures fresh(index) && fresh(index.disk) && fresh(index.disk.pool)
    ensures forall i | 0 <= i < |index.disk.pool.pages| :: fresh(index.disk.pool.pages[i])
    ensures index.Valid() && index.blockTree.Valid() && index.blockTree.Stored() != []
    ensures IndexOfId(index.Objects(), IdOf(x, 1)) == 0 < |index.Objects()| && Without(index.Objects(), 0) == []
  {
    hide SpatialIndex.Valid, SpatialIndex.Parts, AllObjects, KDTree.Valid, KDTree.Stored, BagOf, SlotsOf, Step, Derived;
    hide QuadTrees.QuadTree.Valid, Ledger, ItemBag, PageItems, Built, Blocks, IndexOfId, Without;
    index := new SpatialIndex(sqrt, blockSize, buildQuadtree);
    Execute(index, Op.Insert(x));
    DerivedOpKeepsId(sqrt, Op.Insert(x));
    FirstStored(1, Derived(sqrt, x), index.Objects());
    index.PartsMembers();
    index.Build();
    StoredSlots(index.blockTree.Stored(), index.disk.pool.pages);
  }

  /** A built index whose block tree is not current: its only object was removed before the last build. */
  method BuildAfterRemoval(sqrt: real -> real, blockSize: nat, buildQuadtree: bool, x: SpatialObject)
    returns (index: SpatialIndex)
    ensures index.Valid() && index.isBuilt && index.Objects() == [] && !index.BlocksCurrent()
  {
    hide SpatialIndex.Valid, AllObjects, KDTree.Valid, KDTree.Stored, BagOf, SlotsOf, Step;
    hide QuadTrees.QuadTree.Valid, Ledger, ItemBag, PageItems, Built, Blocks, IndexOfId, Without;
    index := BuildWithOne(sqrt, blockSize, buildQuadtree, x);
    ghost var blockNodes := index.blockTree.Nodes();
    var _ := index.Remove(IdOf(x, 1));
    index.Build();
  }
}
