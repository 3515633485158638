// Spatial objects (src/geometry.c) and what sequences of them mean as a keyed store.
module SpatialObjects {
  import opened Geometry
  import opened Seqs
  import opened Shapes

  datatype Geom =
    | PointGeom(p: Point)
    | LineGeom(points: seq<Point>)
    | PolygonGeom(exterior: seq<Point>, holes: seq<seq<Point>>)

  datatype SpatialObject = SpatialObject(id: nat, geom: Geom, centroid: Point, mbr: MBR)

  /** The object with centroid and rectangle recomputed; unchanged if its geometry has none. */
  function Derived(sqrt: real -> real, o: SpatialObject): SpatialObject {
    match o.geom
    case PointGeom(p) => o.(centroid := p, mbr := PointMBR(p))
    case LineGeom(ps) =>
      if ps == [] then o else o.(centroid := LineCentroid(sqrt, ps).GetOr(o.centroid), mbr := Hull(ps))
    case PolygonGeom(ext, _) =>
      if |ext| < 3 then o else o.(centroid := RingCentroid(ext), mbr := Hull(ext))
  }

  /** The points a rectangle is drawn around: holes do not count. */
  function Vertices(g: Geom): seq<Point> {
    match g
    case PointGeom(p) => [p]
    case LineGeom(ps) => ps
    case PolygonGeom(ext, _) => ext
  }

  /** The geometry has a rectangle: some points, and for a polygon three of them. */
  predicate HasBox(g: Geom) {
    match g
    case PointGeom(_) => true
    case LineGeom(ps) => |ps| > 0
    case PolygonGeom(ext, _) => |ext| > 2
  }

  /** The derived rectangle contains every vertex, ... */
  lemma DerivedBox(sqrt: real -> real, o: SpatialObject)
    requires HasBox(o.geom)
    ensures forall p | p in Vertices(o.geom) :: ContainsPoint(Derived(sqrt, o).mbr, p)
  {
    hide LineCentroid, RingCentroid, Hull;
    var ps := Vertices(o.geom);
    forall p | p in ps ensures ContainsPoint(Derived(sqrt, o).mbr, p) {
      var i :| 0 <= i < |ps| && ps[i] == p;
      HullContains(ps, i);
    }
  }

  /** ... and lies in every rectangle that does, when the vertices are finite. */
  lemma DerivedBoxIsLeast(sqrt: real -> real, o: SpatialObject, b: MBR)
    requires HasBox(o.geom) && forall p | p in Vertices(o.geom) :: Finite(p) && ContainsPoint(b, p)
    ensures ContainsMBR(b, Derived(sqrt, o).mbr)
  {
    hide LineCentroid, RingCentroid, Hull;
    HullIsLeast(Vertices(o.geom), b);
    if o.geom.PointGeom? { assert o.geom.p in Vertices(o.geom); }
  }

  datatype Status = GeomOk | GeomInvalid | GeomEmpty

  /** Recomputes centroid and rectangle, or says why the geometry has none. */
  method UpdateDerived(sqrt: real -> real, o: SpatialObject) returns (status: Status, r: SpatialObject)
    ensures r == Derived(sqrt, o)
    ensures status.GeomEmpty? <==> o.geom.LineGeom? && o.geom.points == []
    ensures status.GeomInvalid? <==> o.geom.PolygonGeom? && |o.geom.exterior| < 3
    ensures status.GeomOk? ==> r.id == o.id && r.geom == o.geom && forall p | p in Vertices(o.geom) ::
      r.mbr.minX <= p.x <= r.mbr.maxX && r.mbr.minY <= p.y <= r.mbr.maxY
    ensures status.GeomOk? ==> match o.geom
      case PointGeom(p) => r.centroid == p
      case LineGeom(ps) => LineCentroid(sqrt, ps) == Some(r.centroid)
      case PolygonGeom(ext, _) => RingCentroid(ext) == r.centroid
  {
    hide RingCentroid, Hull;
    r := o;
    if HasBox(o.geom) { DerivedBox(sqrt, o); }
    match o.geom
    case PointGeom(p) =>
      return GeomOk, r.(centroid := p, mbr := PointMBR(p));
    case LineGeom(ps) =>
      var c := LinestringCentroid(sqrt, ps);
      if c.None? { return GeomEmpty, r; }
      r := r.(centroid := c.value);
      var m := PointsMBR(ps);
      if m.None? { return GeomEmpty, r; }
      return GeomOk, r.(mbr := m.value);
    case PolygonGeom(ext, _) =>
      if |ext| < 3 { return GeomInvalid, r; }
      var cx, cy := RingCentroidOf(ext);
      r := r.(centroid := Point(cx, cy));
      var m := PointsMBR(ext);
      if m.None? { return GeomEmpty, r; }
      return GeomOk, r.(mbr := m.value);
  }

  /** Points and non-empty linestrings: the objects whose centroid is sure to lie in their rectangle. */
  predicate PointOrLine(o: SpatialObject) {
    o.geom.PointGeom? || (o.geom.LineGeom? && o.geom.points != [])
  }

  lemma DerivedCentroidInside(sqrt: real -> real, o: SpatialObject)
    requires NonNegative(sqrt) && PointOrLine(o)
    ensures ContainsPoint(Derived(sqrt, o).mbr, Derived(sqrt, o).centroid)
  {
    hide LineCentroid, Hull;
    if o.geom.LineGeom? { LineCentroidInside(sqrt, o.geom.points); }
  }

  // ---------- Rectangle and centroid of a group of objects ----------

  function Extent(os: seq<SpatialObject>): MBR {
    if os == [] then EMPTY_MBR else ExpandMBR(Extent(os[..|os| - 1]), os[|os| - 1].mbr)
  }

  function CentroidSumX(os: seq<SpatialObject>): real {
    if os == [] then 0.0 else CentroidSumX(os[..|os| - 1]) + os[|os| - 1].centroid.x
  }

  function CentroidSumY(os: seq<SpatialObject>): real {
    if os == [] then 0.0 else CentroidSumY(os[..|os| - 1]) + os[|os| - 1].centroid.y
  }

  function MeanCentroid(os: seq<SpatialObject>): Point
    requires os != []
  {
    Point(CentroidSumX(os) / (|os| as real), CentroidSumY(os) / (|os| as real))
  }

  /** The extent contains every non-empty rectangle of the group, ... */
  lemma {:induction false} ExtentContains(os: seq<SpatialObject>, i: nat)
    requires i < |os| && !IsEmpty(os[i].mbr)
    ensures ContainsMBR(Extent(os), os[i].mbr)
  {
    var n := |os| - 1;
    if i < n { ExtentContains(os[..n], i); }
  }

  /** ... and lies in every rectangle that contains them all. */
  lemma {:induction false} ExtentIsLeast(os: seq<SpatialObject>, b: MBR)
    requires forall o | o in os && !IsEmpty(o.mbr) :: ContainsMBR(b, o.mbr) && Finite(Point(o.mbr.minX, o.mbr.minY)) && Finite(Point(o.mbr.maxX, o.mbr.maxY))
    ensures Extent(os) == EMPTY_MBR || ContainsMBR(b, Extent(os))
  {
    if os != [] {
      var n := |os| - 1;
      assert os[n] in os;
      ExtentIsLeast(os[..n], b);
    }
  }

  lemma {:induction false} CentroidSumsInside(os: seq<SpatialObject>, b: MBR)
    requires forall o | o in os :: ContainsPoint(b, o.centroid)
    ensures InBand(b.minX, b.maxX, |os| as real, CentroidSumX(os))
    ensures InBand(b.minY, b.maxY, |os| as real, CentroidSumY(os))
  {
    hide InBand;
    if os == [] {
      BandStart(b.minX, b.maxX);
      BandStart(b.minY, b.maxY);
    } else {
      var n := |os| - 1;
      assert os[n] in os;
      CentroidSumsInside(os[..n], b);
      BandStep(b.minX, b.maxX, n as real, CentroidSumX(os[..n]), 1.0, os[n].centroid.x, os[n].centroid.x);
      BandStep(b.minY, b.maxY, n as real, CentroidSumY(os[..n]), 1.0, os[n].centroid.y, os[n].centroid.y);
    }
  }

  /** The mean of centroids that lie in b lies in b. */
  lemma MeanInside(os: seq<SpatialObject>, b: MBR)
    requires os != [] && forall o | o in os :: ContainsPoint(b, o.centroid)
    ensures ContainsPoint(b, MeanCentroid(os))
  {
    hide CentroidSumX, CentroidSumY;
    var n := |os| as real;
    assert os[0] in os;
    CentroidSumsInside(os, b);
    DivideBetween(b.minX, b.maxX, CentroidSumX(os), n);
    DivideBetween(b.minY, b.maxY, CentroidSumY(os), n);
  }

  /** The mean centroid times the number of objects is the sum of their centroids, which adds up over parts. */
  lemma {:induction false} CentroidSumsJoin(a: seq<SpatialObject>, b: seq<SpatialObject>)
    ensures CentroidSumX(a + b) == CentroidSumX(a) + CentroidSumX(b)
    ensures CentroidSumY(a + b) == CentroidSumY(a) + CentroidSumY(b)
    ensures |a| == 1 ==> CentroidSumX(a) == a[0].centroid.x && CentroidSumY(a) == a[0].centroid.y
    ensures a != [] ==> MeanCentroid(a).x * (|a| as real) == CentroidSumX(a)
    ensures a != [] ==> MeanCentroid(a).y * (|a| as real) == CentroidSumY(a)
  {
    if b == [] {
      assert a + b == a;
    } else {
      var n := |b| - 1;
      assert (a + b)[..|a| + n] == a + b[..n];
      CentroidSumsJoin(a, b[..n]);
    }
  }

  /** When every object's centroid lies in its own rectangle, the group's centroid lies in its extent. */
  lemma MeanCentroidInside(os: seq<SpatialObject>)
    requires os != [] && forall o | o in os :: ContainsPoint(o.mbr, o.centroid)
    ensures ContainsPoint(Extent(os), MeanCentroid(os))
  {
    hide Extent, CentroidSumX, CentroidSumY;
    var b := Extent(os);
    forall o | o in os ensures ContainsPoint(b, o.centroid) {
      var i :| 0 <= i < |os| && os[i] == o;
      ExtentContains(os, i);
      ContainsMeansSubset(b, o.mbr);
    }
    MeanInside(os, b);
  }

  // ---------- Objects by id ----------

  /** The position of the first object with this id, or |os|. */
  function IndexOfId(os: seq<SpatialObject>, id: nat): (i: nat)
    ensures i <= |os|
    ensures i < |os| ==> os[i].id == id
    ensures forall j | 0 <= j < i :: os[j].id != id
  {
    FirstIndex(os, (o: SpatialObject) => o.id == id)
  }

  lemma IndexOfIdUnique(os: seq<SpatialObject>, id: nat, i: nat)
    requires i <= |os| && (i < |os| ==> os[i].id == id) && forall j | 0 <= j < i :: os[j].id != id
    ensures IndexOfId(os, id) == i
  {
    var k := IndexOfId(os, id);
    assert i < |os| ==> k <= i;
  }

  lemma IndexOfIdConcat(a: seq<SpatialObject>, b: seq<SpatialObject>, id: nat)
    ensures IndexOfId(a + b, id) == if IndexOfId(a, id) < |a| then IndexOfId(a, id) else |a| + IndexOfId(b, id)
  {
    hide IndexOfId;
    IndexOfIdUnique(a + b, id, if IndexOfId(a, id) < |a| then IndexOfId(a, id) else |a| + IndexOfId(b, id));
  }

  /** The store as a map from id to object: what lookup by id answers. */
  function Contents(os: seq<SpatialObject>): map<nat, SpatialObject> {
    if os == [] then map[] else Contents(os[1..])[os[0].id := os[0]]
  }

  /** No id twice, and no object without an id. */
  ghost predicate Keyed(os: seq<SpatialObject>) {
    && (forall i | 0 <= i < |os| :: 0 < os[i].id)
    && (forall i, j | 0 <= i < j < |os| :: os[i].id != os[j].id)
  }

  /** Lookup by scanning and lookup in the map agree, with or without repeated ids. */
  lemma {:induction false} ContentsIsLookup(os: seq<SpatialObject>, id: nat)
    ensures var i := IndexOfId(os, id);
      && (id in Contents(os) <==> i < |os|)
      && (i < |os| ==> Contents(os)[id] == os[i])
  {
    if os != [] && os[0].id != id { ContentsIsLookup(os[1..], id); }
  }

  /** Storing an object under an unused id, wherever it lands, adds one entry to the map. */
  lemma {:induction false} ContentsInserted(os: seq<SpatialObject>, at: nat, x: SpatialObject)
    requires at <= |os| && forall o | o in os :: o.id != x.id
    ensures Contents(InsertedAt(os, at, x)) == Contents(os)[x.id := x]
  {
    var s := InsertedAt(os, at, x);
    if at == 0 {
      assert s[1..] == os;
    } else {
      assert s[1..] == InsertedAt(os[1..], at - 1, x);
      assert os[0] in os;
      ContentsInserted(os[1..], at - 1, x);
    }
  }

  /** Taking an object with a unique id out removes its entry from the map. */
  lemma {:induction false} ContentsRemoved(os: seq<SpatialObject>, i: nat)
    requires i < |os| && forall j | 0 <= j < |os| && j != i :: os[j].id != os[i].id
    ensures Contents(Without(os, i)) == Contents(os) - {os[i].id}
  {
    if i == 0 {
      assert Without(os, 0) == os[1..];
      ContentsIsLookup(os[1..], os[0].id);
    } else {
      assert Without(os, i)[1..] == Without(os[1..], i - 1);
      ContentsRemoved(os[1..], i - 1);
    }
  }

  /** The abstract operations on a keyed store; an object to insert brings an id, or 0. */
  datatype Op = Insert(x: SpatialObject) | Remove(id: nat) | Update(id: nat, x: SpatialObject)

  /** The id an inserted object gets: its own, or the next one to hand out. */
  function IdOf(x: SpatialObject, nextId: nat): nat {
    if x.id == 0 then nextId else x.id
  }

  /** The next id to hand out after ops. */
  function NextId(ops: seq<Op>): (id: nat)
    ensures id > 0
  {
    if ops == [] then 1
    else var n := |ops| - 1; NextId(ops[..n]) + if ops[n].Insert? && ops[n].x.id == 0 then 1 else 0
  }

  /** What one index operation may do to the stored sequence; the position is the allocator's. */
  ghost predicate Step(os: seq<SpatialObject>, nextId: nat, op: Op, os': seq<SpatialObject>) {
    match op
    case Insert(x) => exists at :: 0 <= at <= |os| && os' == InsertedAt(os, at, x.(id := IdOf(x, nextId)))
    case Remove(id) =>
      var i := IndexOfId(os, id);
      os' == if i < |os| then Without(os, i) else os
    case Update(id, x) =>
      var i := IndexOfId(os, id);
      if i < |os| then exists at :: 0 <= at < |os| && os' == InsertedAt(Without(os, i), at, x.(id := id)) else os' == os
  }

  /** The same operation on the map. */
  function Applied(m: map<nat, SpatialObject>, nextId: nat, op: Op): map<nat, SpatialObject> {
    match op
    case Insert(x) => m[IdOf(x, nextId) := x.(id := IdOf(x, nextId))]
    case Remove(id) => m - {id}
    case Update(id, x) => if id in m then m[id := x.(id := id)] else m
  }

  /** The operation stores nothing under an id in use; the code does not check this. */
  predicate Clear(m: map<nat, SpatialObject>, nextId: nat, op: Op) {
    op.Insert? ==> IdOf(op.x, nextId) !in m
  }

  lemma KeyedInserted(os: seq<SpatialObject>, at: nat, x: SpatialObject)
    requires Keyed(os) && at <= |os| && 0 < x.id
    ensures Keyed(InsertedAt(os, at, x)) <==> forall o | o in os :: o.id != x.id
  {
    var s := InsertedAt(os, at, x);
    assert s[at] == x && forall i | 0 <= i < |os| :: os[i] == s[if i < at then i else i + 1];
    if Keyed(s) {
      forall o | o in os ensures o.id != x.id {
        var i :| 0 <= i < |os| && os[i] == o;
        var j := if i < at then i else i + 1;
        assert s[j] == o && j != at;
      }
    }
  }

  lemma KeyedRemoved(os: seq<SpatialObject>, i: nat)
    requires Keyed(os) && i < |os|
    ensures Keyed(Without(os, i))
    ensures forall o | o in Without(os, i) :: o.id != os[i].id
  {
  }

  /** An id is in the map exactly if an object has it. */
  lemma UsedIds(os: seq<SpatialObject>, id: nat)
    ensures id in Contents(os) <==> exists o | o in os :: o.id == id
  {
    hide Contents, IndexOfId;
    ContentsIsLookup(os, id);
    if exists o | o in os :: o.id == id {
      var o :| o in os && o.id == id;
      var j :| 0 <= j < |os| && os[j] == o;
      assert IndexOfId(os, id) <= j;
    }
  }

  /** A step keeps ids unique exactly if it stores nothing under an id in use, and then it is the
      same operation on the map from id to object. */
  lemma StepRefinesMap(os: seq<SpatialObject>, nextId: nat, op: Op, os': seq<SpatialObject>)
    requires nextId > 0 && Keyed(os) && Step(os, nextId, op, os')
    ensures Keyed(os') <==> Clear(Contents(os), nextId, op)
    ensures Keyed(os') ==> Contents(os') == Applied(Contents(os), nextId, op)
  {
    hide Contents, IndexOfId, InsertedAt, Without, Keyed;
    match op
    case Insert(x) =>
      var y := x.(id := IdOf(x, nextId));
      var at :| 0 <= at <= |os| && os' == InsertedAt(os, at, y);
      UsedIds(os, y.id);
      KeyedInserted(os, at, y);
      if Keyed(os') { ContentsInserted(os, at, y); }
    case Remove(id) =>
      ContentsIsLookup(os, id);
      if IndexOfId(os, id) < |os| { TakenOut(os, id); }
    case Update(id, x) =>
      ContentsIsLookup(os, id);
      var i := IndexOfId(os, id);
      if i < |os| {
        TakenOut(os, id);
        var at :| 0 <= at < |os| && os' == InsertedAt(Without(os, i), at, x.(id := id));
        ContentsInserted(Without(os, i), at, x.(id := id));
        KeyedInserted(Without(os, i), at, x.(id := id));
      }
  }

  lemma TakenOut(os: seq<SpatialObject>, id: nat)
    requires Keyed(os) && IndexOfId(os, id) < |os|
    ensures var rest := Without(os, IndexOfId(os, id));
      id > 0 && Keyed(rest) && (forall o | o in rest :: o.id != id) && Contents(rest) == Contents(os) - {id}
  {
    hide Contents, IndexOfId, Without;
    ContentsRemoved(os, IndexOfId(os, id));
    KeyedRemoved(os, IndexOfId(os, id));
  }

  /** A run of operations on a store that starts empty. */
  ghost predicate Run(os: seq<seq<SpatialObject>>, ops: seq<Op>) {
    && |os| == |ops| + 1 && os[0] == []
    && forall i | 0 <= i < |ops| :: Step(os[i], NextId(ops[..i]), ops[i], os[i + 1])
  }

  function AppliedAll(ops: seq<Op>): map<nat, SpatialObject> {
    if ops == [] then map[]
    else var n := |ops| - 1; Applied(AppliedAll(ops[..n]), NextId(ops[..n]), ops[n])
  }

  /** No insert of the run stores an object under an id then in use. */
  ghost predicate AllClear(ops: seq<Op>) {
    forall i | 0 <= i < |ops| :: Clear(AppliedAll(ops[..i]), NextId(ops[..i]), ops[i])
  }

  lemma AllClearNext(ops: seq<Op>)
    requires ops != []
    ensures var n := |ops| - 1;
      AllClear(ops) <==> AllClear(ops[..n]) && Clear(AppliedAll(ops[..n]), NextId(ops[..n]), ops[n])
  {
    hide Clear, AppliedAll, NextId;
    var n := |ops| - 1;
    assert forall i | 0 <= i < n :: ops[..n][..i] == ops[..i];
    if AllClear(ops[..n]) && Clear(AppliedAll(ops[..n]), NextId(ops[..n]), ops[n]) {
      forall i | 0 <= i < |ops| ensures Clear(AppliedAll(ops[..i]), NextId(ops[..i]), ops[i]) {
        if i < n { assert Clear(AppliedAll(ops[..n][..i]), NextId(ops[..n][..i]), ops[..n][i]); }
      }
    }
    if AllClear(ops) {
      forall i | 0 <= i < n
        ensures Clear(AppliedAll(ops[..n][..i]), NextId(ops[..n][..i]), ops[..n][i])
      {
        assert Clear(AppliedAll(ops[..i]), NextId(ops[..i]), ops[i]);
      }
    }
  }

  lemma RunPrefix(os: seq<seq<SpatialObject>>, ops: seq<Op>)
    requires Run(os, ops) && ops != []
    ensures var n := |ops| - 1;
      Run(os[..n + 1], ops[..n]) && Step(os[n], NextId(ops[..n]), ops[n], os[n + 1])
  {
    hide Step, NextId;
    assert forall i | 0 <= i < |ops| :: ops[..|ops| - 1][..i] == ops[..i];
  }

  lemma NextIdNext(ops: seq<Op>, op: Op)
    ensures NextId(ops + [op]) == NextId(ops) + if op.Insert? && op.x.id == 0 then 1 else 0
  {
    assert (ops + [op])[..|ops|] == ops;
  }

  lemma RunNext(os: seq<seq<SpatialObject>>, ops: seq<Op>, op: Op, after: seq<SpatialObject>)
    requires Run(os, ops) && Step(os[|ops|], NextId(ops), op, after)
    ensures Run(os + [after], ops + [op])
    ensures NextId(ops + [op]) == NextId(ops) + if op.Insert? && op.x.id == 0 then 1 else 0
  {
    hide Step, NextId;
    var n, more := |ops|, ops + [op];
    NextIdNext(ops, op);
    assert more[..n] == ops;
    forall i | 0 <= i < |more| ensures Step((os + [after])[i], NextId(more[..i]), more[i], (os + [after])[i + 1]) {
      assert more[..i] == ops[..i];
      assert i == n ==> ops[..i] == ops;
    }
  }

  /** Over every run ids are unique all along exactly if no insert meets an id in use, and then the
      stored objects are exactly the abstract map. */
  lemma {:induction false} RunRefinesMap(os: seq<seq<SpatialObject>>, ops: seq<Op>)
    requires Run(os, ops)
    ensures (forall i | 0 <= i <= |ops| :: Keyed(os[i])) <==> AllClear(ops)
    ensures AllClear(ops) ==> Contents(os[|ops|]) == AppliedAll(ops)
  {
    hide Step, Contents, Applied, Keyed, Clear, AllClear, NextId;
    if ops == [] {
      EmptyRun(ops);
    } else {
      var n := |ops| - 1;
      RunPrefix(os, ops);
      AllClearNext(ops);
      RunRefinesMap(os[..n + 1], ops[..n]);
      assert (forall i | 0 <= i <= n :: Keyed(os[i])) <==> AllClear(ops[..n]) by {
        assert forall i | 0 <= i <= n :: os[..n + 1][i] == os[i];
      }
      if AllClear(ops[..n]) {
        assert Keyed(os[n]);
        StepRefinesMap(os[n], NextId(ops[..n]), ops[n], os[n + 1]);
      }
    }
  }

  lemma EmptyRun(ops: seq<Op>)
    requires ops == []
    ensures Contents([]) == map[] && Keyed([]) && AllClear(ops)
  {
  }

  /** Ids the index hands out are never in use, in a run whose objects bring none. */
  lemma {:induction false} HandedOutIds(ops: seq<Op>)
    requires forall op | op in ops :: op.Insert? ==> op.x.id == 0
    ensures AllClear(ops) && forall id | id in AppliedAll(ops) :: id < NextId(ops)
  {
    hide AllClear;
    if ops == [] {
      EmptyRun(ops);
    } else {
      var n := |ops| - 1;
      HandedOutIds(ops[..n]);
      assert ops[n] in ops;
      AllClearNext(ops);
    }
  }

  /** An object that brings id 1 on a new index takes the id that the next object without one is given. */
  lemma OwnIdCollides(x: SpatialObject, y: SpatialObject)
    requires x.id == 1 && y.id == 0
    ensures !AllClear([Op.Insert(x), Op.Insert(y)])
  {
    var ops := [Op.Insert(x), Op.Insert(y)];
    assert ops[..1] == [Op.Insert(x)] && ops[..1][..0] == [];
    assert NextId(ops[..1]) == 1 && 1 in AppliedAll(ops[..1]);
    assert !Clear(AppliedAll(ops[..1]), NextId(ops[..1]), ops[1]);
  }
}
