// The values the quadtree of src/quadtree.c goes through, and what its operations mean.
module QuadSpec {
  import opened Geometry
  import opened Seqs

  datatype Item<D> = Item(id: nat, bounds: MBR, centroid: Point, data: D)

  /** A node; a leaf has no kids, an inner node has four: NW, NE, SW, SE. */
  datatype Quad<D> = Quad(bounds: MBR, depth: nat, items: seq<Item<D>>, kids: seq<Quad<D>>)

  function MidX(b: MBR): real { (b.minX + b.maxX) / 2.0 }

  function MidY(b: MBR): real { (b.minY + b.maxY) / 2.0 }

  function Quadrant(b: MBR, q: nat): MBR {
    if q == 0 then MBR(b.minX, MidY(b), MidX(b), b.maxY)
    else if q == 1 then MBR(MidX(b), MidY(b), b.maxX, b.maxY)
    else if q == 2 then MBR(b.minX, b.minY, MidX(b), MidY(b))
    else MBR(MidX(b), b.minY, b.maxX, MidY(b))
  }

  /** The first quadrant of b that contains m, or 4 if m straddles them all. */
  function FirstQuadrant(b: MBR, m: MBR): (q: nat)
    ensures q <= 4
    ensures q < 4 ==> ContainsMBR(Quadrant(b, q), m)
    ensures forall i | 0 <= i < q :: !ContainsMBR(Quadrant(b, i), m)
  {
    if ContainsMBR(Quadrant(b, 0), m) then 0
    else if ContainsMBR(Quadrant(b, 1), m) then 1
    else if ContainsMBR(Quadrant(b, 2), m) then 2
    else if ContainsMBR(Quadrant(b, 3), m) then 3
    else 4
  }

  /** m lies across one of the two centre lines of b. */
  predicate Crosses(b: MBR, m: MBR) {
    || 2.0 * m.minX < b.minX + b.maxX < 2.0 * m.maxX
    || 2.0 * m.minY < b.minY + b.maxY < 2.0 * m.maxY
  }

  /** Each quadrant holds what lies on its sides of the centre lines: the first two the upper half, the
      others the lower; the first and the third the left half, the others the right. */
  lemma QuadrantSides(b: MBR, m: MBR)
    requires ContainsMBR(b, m)
    ensures ContainsMBR(Quadrant(b, 0), m) <==> 2.0 * m.maxX <= b.minX + b.maxX && 2.0 * m.minY >= b.minY + b.maxY
    ensures ContainsMBR(Quadrant(b, 1), m) <==> 2.0 * m.minX >= b.minX + b.maxX && 2.0 * m.minY >= b.minY + b.maxY
    ensures ContainsMBR(Quadrant(b, 2), m) <==> 2.0 * m.maxX <= b.minX + b.maxX && 2.0 * m.maxY <= b.minY + b.maxY
    ensures ContainsMBR(Quadrant(b, 3), m) <==> 2.0 * m.minX >= b.minX + b.maxX && 2.0 * m.maxY <= b.minY + b.maxY
  {
  }

  /** So a rectangle inside b fits no quadrant exactly when it crosses a centre line. */
  lemma StraddlesMeansCrosses(b: MBR, m: MBR)
    requires ContainsMBR(b, m)
    ensures Straddles(b, m) <==> Crosses(b, m)
  {
    hide Quadrant;
    QuadrantSides(b, m);
  }

  /** What fits a quadrant fits the whole. */
  lemma QuadrantNested(b: MBR, q: nat, m: MBR)
    requires ContainsMBR(Quadrant(b, q), m)
    ensures ContainsMBR(b, m)
  {
  }

  /** All stored items, each node before its kids. */
  function All<D>(t: Quad<D>): seq<Item<D>>
    decreases t, 1
  {
    t.items + AllOf(t.kids)
  }

  function AllOf<D>(ts: seq<Quad<D>>): seq<Item<D>>
    decreases ts, 0
  {
    if ts == [] then [] else All(ts[0]) + AllOf(ts[1..])
  }

  lemma {:induction false} AllOfMember<D>(ts: seq<Quad<D>>, q: nat, x: Item<D>)
    requires q < |ts| && x in All(ts[q])
    ensures x in AllOf(ts)
  {
    if q > 0 { AllOfMember(ts[1..], q - 1, x); }
  }

  // ---------- The invariant ----------

  ghost predicate HoldsOnly<D>(t: Quad<D>) {
    forall x | x in t.items :: ContainsMBR(t.bounds, x.bounds)
  }

  /** The items kept in an inner node fit none of its quadrants. */
  predicate Straddles(b: MBR, m: MBR) { FirstQuadrant(b, m) == 4 }

  ghost predicate Placed<D>(t: Quad<D>, cap: nat, maxDepth: nat) {
    && t.depth <= maxDepth
    && (t.kids == [] && t.depth < maxDepth ==> |t.items| <= cap)
    && (t.kids != [] ==>
          && t.depth < maxDepth && |t.kids| == 4
          && (forall x | x in t.items :: Straddles(t.bounds, x.bounds))
          && (forall q | 0 <= q < 4 ::
                t.kids[q].bounds == Quadrant(t.bounds, q) && t.kids[q].depth == t.depth + 1)
          && (forall k | k in t.kids :: HoldsOnly(k) && Placed(k, cap, maxDepth)))
  }

  /** Below the root, everything a subtree stores lies inside its bounds. */
  lemma {:induction false} SubtreeInside<D>(t: Quad<D>, cap: nat, maxDepth: nat)
    requires Placed(t, cap, maxDepth) && HoldsOnly(t)
    ensures forall x | x in All(t) :: ContainsMBR(t.bounds, x.bounds)
    decreases t, 1
  {
    hide Straddles, Quadrant;
    if t.kids != [] {
      KidsInside(t.kids, t.bounds, 0, cap, maxDepth);
    }
  }

  lemma {:induction false} KidsInside<D>(ts: seq<Quad<D>>, b: MBR, from: nat, cap: nat, maxDepth: nat)
    requires forall k | k in ts :: HoldsOnly(k) && Placed(k, cap, maxDepth)
    requires forall i | 0 <= i < |ts| :: ts[i].bounds == Quadrant(b, from + i)
    ensures forall x | x in AllOf(ts) :: ContainsMBR(b, x.bounds)
    decreases ts, 0
  {
    hide Straddles, Quadrant, ContainsMBR, Placed, HoldsOnly;
    if ts != [] {
      assert ts[0] in ts;
      SubtreeInside(ts[0], cap, maxDepth);
      forall x | x in All(ts[0]) ensures ContainsMBR(b, x.bounds) { QuadrantNested(b, from, x.bounds); }
      KidsInside(ts[1..], b, from + 1, cap, maxDepth);
    }
  }

  // ---------- Splitting ----------

  function EmptyLeaf<D>(b: MBR, depth: nat): Quad<D> { Quad(b, depth, [], []) }

  function EmptyKids<D>(b: MBR, depth: nat): seq<Quad<D>> {
    [EmptyLeaf(Quadrant(b, 0), depth), EmptyLeaf(Quadrant(b, 1), depth),
     EmptyLeaf(Quadrant(b, 2), depth), EmptyLeaf(Quadrant(b, 3), depth)]
  }

  /** The first kid that contains b and has fewer than cap items, or |kids| if there is none. */
  function FirstRoom<D>(kids: seq<Quad<D>>, b: MBR, cap: nat): (q: nat)
    ensures q <= |kids|
    ensures q < |kids| ==> ContainsMBR(kids[q].bounds, b) && |kids[q].items| < cap
    ensures forall i | 0 <= i < q :: !(ContainsMBR(kids[i].bounds, b) && |kids[i].items| < cap)
  {
    if kids == [] then 0
    else if ContainsMBR(kids[0].bounds, b) && |kids[0].items| < cap then 0
    else 1 + FirstRoom(kids[1..], b, cap)
  }

  function Append<D>(k: Quad<D>, x: Item<D>): Quad<D> { k.(items := k.items + [x]) }

  /** Moves items, in order, each into the first kid with room for it; those without one are dropped. */
  function Distribute<D>(kids: seq<Quad<D>>, items: seq<Item<D>>, cap: nat): seq<Quad<D>>
    decreases items
  {
    if items == [] then kids
    else
      var q := FirstRoom(kids, items[0].bounds, cap);
      Distribute(if q < |kids| then kids[q := Append(kids[q], items[0])] else kids, items[1..], cap)
  }

  function DroppedBy<D>(kids: seq<Quad<D>>, items: seq<Item<D>>, cap: nat): seq<Item<D>>
    decreases items
  {
    if items == [] then []
    else
      var q := FirstRoom(kids, items[0].bounds, cap);
      if q < |kids| then DroppedBy(kids[q := Append(kids[q], items[0])], items[1..], cap)
      else [items[0]] + DroppedBy(kids, items[1..], cap)
  }

  function Split<D>(t: Quad<D>, cap: nat): Quad<D> {
    Quad(t.bounds, t.depth, [], Distribute(EmptyKids(t.bounds, t.depth + 1), t.items, cap))
  }

  function SplitDrops<D>(t: Quad<D>, cap: nat): seq<Item<D>> {
    DroppedBy(EmptyKids(t.bounds, t.depth + 1), t.items, cap)
  }

  /** The stored items as a multiset, computed along the tree. */
  ghost function Bag<D>(t: Quad<D>): multiset<Item<D>>
    decreases t, 1
  {
    multiset(t.items) + BagOf(t.kids)
  }

  ghost function BagOf<D>(ts: seq<Quad<D>>): multiset<Item<D>>
    decreases ts, 0
  {
    if ts == [] then multiset{} else Bag(ts[0]) + BagOf(ts[1..])
  }

  lemma {:induction false} BagOfAll<D>(t: Quad<D>)
    ensures Bag(t) == multiset(All(t))
    decreases t, 1
  {
    BagOfAllOf(t.kids);
  }

  lemma {:induction false} BagOfAllOf<D>(ts: seq<Quad<D>>)
    ensures BagOf(ts) == multiset(AllOf(ts))
    decreases ts, 0
  {
    if ts != [] {
      BagOfAll(ts[0]);
      BagOfAllOf(ts[1..]);
    }
  }

  lemma Regroup<T>(a: multiset<T>, b: multiset<T>, minus: multiset<T>, c: multiset<T>, plus: multiset<T>)
    requires b + minus == c + plus
    ensures a + b + minus == a + c + plus
    ensures b + a + minus == c + a + plus
  {
    assert a + b + minus == a + (b + minus);
    assert a + c + plus == a + (c + plus);
    assert b + a + minus == a + (b + minus);
    assert c + a + plus == a + (c + plus);
  }

  /** Changing one kid changes the multiset of all by the same amount. */
  lemma {:induction false} BagOfUpdate<D>(ts: seq<Quad<D>>, q: nat, k: Quad<D>, plus: multiset<Item<D>>, minus: multiset<Item<D>>)
    requires q < |ts| && Bag(k) + minus == Bag(ts[q]) + plus
    ensures BagOf(ts[q := k]) + minus == BagOf(ts) + plus
  {
    hide Bag;
    var us := ts[q := k];
    assert BagOf(us) == Bag(us[0]) + BagOf(us[1..]) && BagOf(ts) == Bag(ts[0]) + BagOf(ts[1..]);
    if q == 0 {
      assert us[1..] == ts[1..];
      Regroup(BagOf(ts[1..]), Bag(k), minus, Bag(ts[0]), plus);
    } else {
      assert us[1..] == ts[1..][q - 1 := k];
      BagOfUpdate(ts[1..], q - 1, k, plus, minus);
      Regroup(Bag(ts[0]), BagOf(us[1..]), minus, BagOf(ts[1..]), plus);
    }
  }

  lemma BagAppend<D>(k: Quad<D>, x: Item<D>)
    ensures Bag(Append(k, x)) == Bag(k) + multiset{x}
  {
  }

  /** Every item a split redistributes ends up in a kid or among the dropped, exactly once. */
  lemma {:induction false} DistributeAccounts<D>(kids: seq<Quad<D>>, items: seq<Item<D>>, cap: nat)
    ensures BagOf(Distribute(kids, items, cap)) + multiset(DroppedBy(kids, items, cap)) == BagOf(kids) + multiset(items)
    decreases items
  {
    hide Bag, BagOf, FirstRoom, Append;
    if items != [] {
      var x, rest := items[0], items[1..];
      var q := FirstRoom(kids, x.bounds, cap);
      assert items == [x] + rest;
      assert multiset(items) == multiset{x} + multiset(rest);
      if q < |kids| {
        var kids' := kids[q := Append(kids[q], x)];
        BagAppend(kids[q], x);
        BagOfUpdate(kids, q, Append(kids[q], x), multiset{x}, multiset{});
        assert BagOf(kids') == BagOf(kids) + multiset{x};
        DistributeAccounts(kids', rest, cap);
        assert BagOf(kids) + multiset{x} + multiset(rest) == BagOf(kids) + multiset(items);
      } else {
        DistributeAccounts(kids, rest, cap);
        var d := DroppedBy(kids, rest, cap);
        assert multiset([x] + d) == multiset{x} + multiset(d);
        Regroup(multiset{x}, BagOf(Distribute(kids, rest, cap)), multiset(d), BagOf(kids), multiset(rest));
        assert BagOf(Distribute(kids, rest, cap)) + multiset([x] + d)
            == multiset{x} + BagOf(Distribute(kids, rest, cap)) + multiset(d);
        assert multiset{x} + BagOf(kids) + multiset(rest) == BagOf(kids) + multiset(items);
      }
    }
  }

  /** Only items change in a split's kids, and they stay inside and within capacity. */
  ghost predicate FreshKids<D>(kids: seq<Quad<D>>, b: MBR, depth: nat, n: nat) {
    && |kids| == 4
    && forall q | 0 <= q < 4 ::
         && kids[q].bounds == Quadrant(b, q) && kids[q].depth == depth && kids[q].kids == []
         && HoldsOnly(kids[q]) && |kids[q].items| <= n
  }

  lemma FreshAppend<D>(kids: seq<Quad<D>>, b: MBR, depth: nat, n: nat, q: nat, x: Item<D>)
    requires FreshKids(kids, b, depth, n) && q < 4 && ContainsMBR(kids[q].bounds, x.bounds)
    ensures FreshKids(kids[q := Append(kids[q], x)], b, depth, n + 1)
  {
    hide Quadrant, ContainsMBR;
  }

  /** Items whose first fitting quadrant of b is q; with q == 4, those that fit none. */
  function GoesTo<D>(b: MBR, q: nat): Item<D> -> bool {
    (x: Item<D>) => FirstQuadrant(b, x.bounds) == q
  }

  /** With room everywhere, an item goes to the first quadrant that contains it. */
  lemma RoomForFitting<D>(kids: seq<Quad<D>>, b: MBR, depth: nat, n: nat, cap: nat, m: MBR)
    requires FreshKids(kids, b, depth, n) && n < cap
    ensures |kids| == 4 && FirstRoom(kids, m, cap) == FirstQuadrant(b, m)
  {
    hide Quadrant, ContainsMBR, HoldsOnly;
    var q := FirstRoom(kids, m, cap);
    assert forall i | 0 <= i < q :: !ContainsMBR(kids[i].bounds, m);
    assert forall i | 0 <= i < q :: !ContainsMBR(Quadrant(b, i), m);
  }

  /** One item more: the kid it goes to takes it and all stay fresh, or it straddles them. */
  lemma DistributeStep<D>(kids: seq<Quad<D>>, x: Item<D>, cap: nat, b: MBR, depth: nat, n: nat)
    requires FreshKids(kids, b, depth, n) && n < cap
    ensures var q := FirstRoom(kids, x.bounds, cap);
      && |kids| == 4 && q == FirstQuadrant(b, x.bounds)
      && if q < 4 then FreshKids(kids[q := Append(kids[q], x)], b, depth, n + 1) else FreshKids(kids, b, depth, n + 1)
  {
    hide Append, ContainsMBR, Quadrant, HoldsOnly;
    var q := FirstRoom(kids, x.bounds, cap);
    RoomForFitting(kids, b, depth, n, cap, x.bounds);
    if q < 4 { FreshAppend(kids, b, depth, n, q, x); } else { FreshMonotonic(kids, b, depth, n, n + 1); }
  }

  /** While no kid can overflow, a split drops exactly the items that fit no quadrant. */
  lemma {:induction false} DroppedAreMisfits<D>(kids: seq<Quad<D>>, items: seq<Item<D>>, cap: nat, b: MBR, depth: nat, n: nat)
    requires FreshKids(kids, b, depth, n) && n + |items| <= cap
    ensures DroppedBy(kids, items, cap) == Filter(items, GoesTo(b, 4))
    decreases items
  {
    hide FreshKids, FirstRoom, FirstQuadrant, Append;
    if items != [] {
      var q := FirstRoom(kids, items[0].bounds, cap);
      DistributeStep(kids, items[0], cap, b, depth, n);
      DroppedAreMisfits(if q < |kids| then kids[q := Append(kids[q], items[0])] else kids, items[1..], cap, b, depth, n + 1);
    }
  }

  lemma {:induction false} DistributeStaysFresh<D>(kids: seq<Quad<D>>, items: seq<Item<D>>, cap: nat, b: MBR, depth: nat, n: nat)
    requires FreshKids(kids, b, depth, n) && n + |items| <= cap
    ensures FreshKids(Distribute(kids, items, cap), b, depth, n + |items|)
    decreases items
  {
    hide FreshKids, FirstRoom, FirstQuadrant, Append;
    if items != [] {
      var q := FirstRoom(kids, items[0].bounds, cap);
      DistributeStep(kids, items[0], cap, b, depth, n);
      DistributeStaysFresh(if q < |kids| then kids[q := Append(kids[q], items[0])] else kids, items[1..], cap, b, depth, n + 1);
    }
  }

  /** ... and every kid receives, in order, the items whose first fitting quadrant it is. */
  lemma {:induction false} DistributeSorts<D>(kids: seq<Quad<D>>, items: seq<Item<D>>, cap: nat, b: MBR, depth: nat, n: nat, q: nat)
    requires FreshKids(kids, b, depth, n) && n + |items| <= cap && q < 4
    ensures |kids| == 4 == |Distribute(kids, items, cap)|
    ensures Distribute(kids, items, cap)[q].items == kids[q].items + Filter(items, GoesTo(b, q))
    decreases items
  {
    hide FreshKids, FirstRoom, FirstQuadrant, Append, Filter;
    FreshCount(kids, b, depth, n);
    if items == [] {
      FilterNone(items, GoesTo<D>(b, q));
    } else {
      var x := items[0];
      var p := FirstRoom(kids, x.bounds, cap);
      DistributeStep(kids, x, cap, b, depth, n);
      var kids' := if p < 4 then kids[p := Append(kids[p], x)] else kids;
      DistributeSorts(kids', items[1..], cap, b, depth, n + 1, q);
      KidGrows(kids, x, b, p, q, items);
    }
  }

  lemma KidGrows<D>(kids: seq<Quad<D>>, x: Item<D>, b: MBR, p: nat, q: nat, items: seq<Item<D>>)
    requires |kids| == 4 && q < 4 && items != [] && x == items[0] && p == FirstQuadrant(b, x.bounds)
    ensures var kids' := if p < 4 then kids[p := Append(kids[p], x)] else kids;
      kids'[q].items + Filter(items[1..], GoesTo(b, q)) == kids[q].items + Filter(items, GoesTo(b, q))
  {
    hide FirstQuadrant, Filter;
    FilterHead(items, GoesTo(b, q));
    var head, tail := if p == q then [x] else [], Filter(items[1..], GoesTo(b, q));
    var kids' := if p < 4 then kids[p := Append(kids[p], x)] else kids;
    assert kids'[q].items == kids[q].items + head;
    assert kids[q].items + head + tail == kids[q].items + (head + tail);
  }

  lemma FreshCount<D>(kids: seq<Quad<D>>, b: MBR, depth: nat, n: nat)
    requires FreshKids(kids, b, depth, n)
    ensures |kids| == 4
  {
  }

  lemma FreshMonotonic<D>(kids: seq<Quad<D>>, b: MBR, depth: nat, n: nat, m: nat)
    requires FreshKids(kids, b, depth, n) && n <= m
    ensures FreshKids(kids, b, depth, m)
  {
    hide Quadrant, HoldsOnly;
  }

  lemma EmptyKidsFresh<D>(b: MBR, depth: nat)
    ensures FreshKids(EmptyKids<D>(b, depth), b, depth, 0)
    ensures BagOf(EmptyKids<D>(b, depth)) == multiset{}
  {
    hide Quadrant;
    EmptyKidsBag<D>(b, depth);
  }

  /** A split of a leaf within capacity drops exactly the items that fit no quadrant, ... */
  lemma SplitDropsStraddlers<D>(t: Quad<D>, cap: nat)
    requires t.kids == [] && |t.items| <= cap
    ensures SplitDrops(t, cap) == Filter(t.items, GoesTo(t.bounds, 4))
  {
    hide FreshKids, DroppedBy, EmptyKids;
    EmptyKidsFresh<D>(t.bounds, t.depth + 1);
    DroppedAreMisfits(EmptyKids<D>(t.bounds, t.depth + 1), t.items, cap, t.bounds, t.depth + 1, 0);
  }

  /** ... which are, of the items inside the leaf, those that cross one of its centre lines, ... */
  lemma SplitDropsCrossers<D>(t: Quad<D>, cap: nat, x: Item<D>)
    requires t.kids == [] && |t.items| <= cap && ContainsMBR(t.bounds, x.bounds)
    ensures x in SplitDrops(t, cap) <==> x in t.items && Crosses(t.bounds, x.bounds)
  {
    hide SplitDrops, FirstQuadrant, Filter, Crosses;
    SplitDropsStraddlers(t, cap);
    StraddlesMeansCrosses(t.bounds, x.bounds);
    assert GoesTo<D>(t.bounds, 4)(x) <==> Straddles(t.bounds, x.bounds);
  }

  /** ... gives every other item to its first fitting quadrant, and overflows none. */
  lemma SplitSorts<D>(t: Quad<D>, cap: nat, q: nat)
    requires t.kids == [] && |t.items| <= cap && q < 4
    ensures FreshKids(Split(t, cap).kids, t.bounds, t.depth + 1, cap) && |Split(t, cap).kids| == 4
    ensures Split(t, cap).kids[q].items == Filter(t.items, GoesTo(t.bounds, q))
  {
    hide FreshKids, Distribute, GoesTo;
    EmptyKidsFresh<D>(t.bounds, t.depth + 1);
    DistributeStaysFresh(EmptyKids<D>(t.bounds, t.depth + 1), t.items, cap, t.bounds, t.depth + 1, 0);
    DistributeSorts(EmptyKids<D>(t.bounds, t.depth + 1), t.items, cap, t.bounds, t.depth + 1, 0, q);
    FreshMonotonic(Split(t, cap).kids, t.bounds, t.depth + 1, |t.items|, cap);
  }

  lemma NoKids<D>()
    ensures BagOf<D>([]) == multiset{}
  {
  }

  /** Every item of a leaf that is split is kept or dropped, exactly once. */
  lemma SplitAccounts<D>(t: Quad<D>, cap: nat)
    requires t.kids == []
    ensures Bag(Split(t, cap)) + multiset(SplitDrops(t, cap)) == Bag(t)
  {
    hide Distribute, DroppedBy, EmptyKids, BagOf;
    EmptyKidsBag<D>(t.bounds, t.depth + 1);
    DistributeAccounts(EmptyKids<D>(t.bounds, t.depth + 1), t.items, cap);
    NoKids<D>();
    assert Bag(Split(t, cap)) == BagOf(Split(t, cap).kids);
    assert Bag(t) == multiset(t.items);
  }

  /** Nodes without items and children hold nothing. */
  lemma {:induction false} EmptyNodesBag<D>(ts: seq<Quad<D>>)
    requires forall t | t in ts :: t.items == [] && t.kids == []
    ensures BagOf(ts) == multiset{}
  {
    NoKids<D>();
    if ts != [] {
      assert Bag(ts[0]) == multiset{} by { assert ts[0] in ts; }
      EmptyNodesBag(ts[1..]);
    }
  }

  lemma EmptyKidsBag<D>(b: MBR, depth: nat)
    ensures BagOf(EmptyKids<D>(b, depth)) == multiset{}
  {
    hide Bag, BagOf, Quadrant;
    EmptyNodesBag(EmptyKids<D>(b, depth));
  }

  // ---------- Insertion ----------

  /** The first kid that contains b, or |kids|. */
  function FirstFit<D>(kids: seq<Quad<D>>, b: MBR): (q: nat)
    ensures q <= |kids|
    ensures q < |kids| ==> ContainsMBR(kids[q].bounds, b)
    ensures forall i | 0 <= i < q :: !ContainsMBR(kids[i].bounds, b)
  {
    if kids == [] then 0
    else if ContainsMBR(kids[0].bounds, b) then 0
    else 1 + FirstFit(kids[1..], b)
  }

  /** Depths grow by one per level and stay within the limit: all that insertion needs to terminate. */
  ghost predicate Layered<D>(t: Quad<D>, maxDepth: nat) {
    && t.depth <= maxDepth
    && (t.kids != [] ==> t.depth < maxDepth)
    && (forall k | k in t.kids :: k.depth == t.depth + 1 && Layered(k, maxDepth))
  }

  predicate MustSplit<D>(t: Quad<D>, cap: nat, maxDepth: nat) {
    t.kids == [] && |t.items| >= cap && t.depth < maxDepth
  }

  lemma {:induction false} DistributeLayered<D>(kids: seq<Quad<D>>, items: seq<Item<D>>, cap: nat, depth: nat)
    requires forall k | k in kids :: k.depth == depth && k.kids == []
    ensures forall k | k in Distribute(kids, items, cap) :: k.depth == depth && k.kids == []
    ensures |Distribute(kids, items, cap)| == |kids|
    decreases items
  {
    if items != [] {
      var q := FirstRoom(kids, items[0].bounds, cap);
      DistributeLayered(if q < |kids| then kids[q := Append(kids[q], items[0])] else kids, items[1..], cap, depth);
    }
  }

  lemma SplitLayered<D>(t: Quad<D>, cap: nat, maxDepth: nat)
    requires t.depth < maxDepth
    ensures Layered(Split(t, cap), maxDepth) && |Split(t, cap).kids| == 4 && Split(t, cap).depth == t.depth
  {
    DistributeLayered(EmptyKids<D>(t.bounds, t.depth + 1), t.items, cap, t.depth + 1);
  }

  /** Insertion below a node the item meets: full leaves split, possibly over several levels. */
  ghost function InsertIn<D>(t: Quad<D>, x: Item<D>, cap: nat, maxDepth: nat): Quad<D>
    requires Layered(t, maxDepth)
    decreases maxDepth - t.depth, t.kids == []
  {
    if MustSplit(t, cap, maxDepth) then
      SplitLayered(t, cap, maxDepth);
      InsertIn(Split(t, cap), x, cap, maxDepth)
    else
      var q := FirstFit(t.kids, x.bounds);
      if q < |t.kids| then t.(kids := t.kids[q := InsertIn(t.kids[q], x, cap, maxDepth)])
      else Append(t, x)
  }

  /** The items the splits of an insertion drop. */
  ghost function InsertDrops<D>(t: Quad<D>, x: Item<D>, cap: nat, maxDepth: nat): seq<Item<D>>
    requires Layered(t, maxDepth)
    decreases maxDepth - t.depth, t.kids == []
  {
    if MustSplit(t, cap, maxDepth) then
      SplitLayered(t, cap, maxDepth);
      SplitDrops(t, cap) + InsertDrops(Split(t, cap), x, cap, maxDepth)
    else
      var q := FirstFit(t.kids, x.bounds);
      if q < |t.kids| then InsertDrops(t.kids[q], x, cap, maxDepth) else []
  }

  /** A leaf with room, or at the depth limit, takes one item more; a full one above the limit is split. */
  lemma LeafInsert<D>(t: Quad<D>, x: Item<D>, cap: nat, maxDepth: nat)
    requires t.kids == [] && t.depth <= maxDepth
    ensures Layered(t, maxDepth)
    ensures |t.items| < cap || t.depth == maxDepth ==>
      InsertIn(t, x, cap, maxDepth) == Quad(t.bounds, t.depth, t.items + [x], []) && InsertDrops(t, x, cap, maxDepth) == []
    ensures |t.items| >= cap && t.depth < maxDepth ==> |InsertIn(t, x, cap, maxDepth).kids| == 4
  {
    hide Split, SplitDrops;
    if |t.items| >= cap && t.depth < maxDepth {
      SplitLayered(t, cap, maxDepth);
      var s := Split(t, cap);
      assert InsertIn(t, x, cap, maxDepth) == InsertIn(s, x, cap, maxDepth);
    } else {
      assert FirstFit(t.kids, x.bounds) == 0;
    }
  }

  /** The ledger of one insertion: stored afterwards plus dropped is stored before plus the new item. */
  lemma {:induction false} InsertAccounts<D>(t: Quad<D>, x: Item<D>, cap: nat, maxDepth: nat)
    requires Layered(t, maxDepth)
    ensures Bag(InsertIn(t, x, cap, maxDepth)) + multiset(InsertDrops(t, x, cap, maxDepth)) == Bag(t) + multiset{x}
    decreases maxDepth - t.depth, t.kids == []
  {
    hide FirstRoom, Split, SplitDrops, Append, ContainsMBR, BagOf;
    if MustSplit(t, cap, maxDepth) {
      var s := Split(t, cap);
      SplitLayered(t, cap, maxDepth);
      SplitAccounts(t, cap);
      InsertAccounts(s, x, cap, maxDepth);
      var kept, lost, rest := Bag(InsertIn(s, x, cap, maxDepth)), multiset(SplitDrops(t, cap)), multiset(InsertDrops(s, x, cap, maxDepth));
      assert kept + (lost + rest) == (kept + rest) + lost;
      assert Bag(s) + multiset{x} + lost == (Bag(s) + lost) + multiset{x};
    } else {
      var q := FirstFit(t.kids, x.bounds);
      if q < |t.kids| {
        var k := InsertIn(t.kids[q], x, cap, maxDepth);
        var lost := multiset(InsertDrops(t.kids[q], x, cap, maxDepth));
        InsertAccounts(t.kids[q], x, cap, maxDepth);
        BagOfUpdate(t.kids, q, k, multiset{x}, lost);
        Regroup(multiset(t.items), BagOf(t.kids[q := k]), lost, BagOf(t.kids), multiset{x});
      } else {
        BagAppend(t, x);
      }
    }
  }

  // ---------- What insertion keeps ----------

  lemma {:induction false} PlacedIsLayered<D>(t: Quad<D>, cap: nat, maxDepth: nat)
    requires Placed(t, cap, maxDepth)
    ensures Layered(t, maxDepth)
  {
    hide Straddles, Quadrant, HoldsOnly;
    forall k | k in t.kids ensures k.depth == t.depth + 1 && Layered(k, maxDepth) {
      PlacedIsLayered(k, cap, maxDepth);
    }
  }

  /** Insertion into a tree in its invariant state, and what it drops. */
  ghost function Inserted<D>(t: Quad<D>, x: Item<D>, cap: nat, maxDepth: nat): Quad<D>
    requires Placed(t, cap, maxDepth)
  {
    PlacedIsLayered(t, cap, maxDepth);
    InsertIn(t, x, cap, maxDepth)
  }

  ghost function Lost<D>(t: Quad<D>, x: Item<D>, cap: nat, maxDepth: nat): seq<Item<D>>
    requires Placed(t, cap, maxDepth)
  {
    PlacedIsLayered(t, cap, maxDepth);
    InsertDrops(t, x, cap, maxDepth)
  }

  lemma FreshIsPlaced<D>(t: Quad<D>, cap: nat, maxDepth: nat)
    requires t.items == [] && t.depth < maxDepth && FreshKids(t.kids, t.bounds, t.depth + 1, cap)
    ensures Placed(t, cap, maxDepth)
  {
    hide Quadrant, Straddles, HoldsOnly;
  }

  lemma PlacedKid<D>(t: Quad<D>, q: nat, k: Quad<D>, cap: nat, maxDepth: nat)
    requires Placed(t, cap, maxDepth) && q < |t.kids|
    requires Placed(k, cap, maxDepth) && HoldsOnly(k) && k.bounds == t.kids[q].bounds && k.depth == t.kids[q].depth
    ensures Placed(t.(kids := t.kids[q := k]), cap, maxDepth)
  {
    hide Quadrant, Straddles, HoldsOnly;
    var kids := t.kids[q := k];
    forall c | c in kids ensures HoldsOnly(c) && Placed(c, cap, maxDepth) {
      assert c == k || c in t.kids;
    }
  }

  lemma FitIsFirstQuadrant<D>(t: Quad<D>, m: MBR, cap: nat, maxDepth: nat)
    requires Placed(t, cap, maxDepth) && t.kids != []
    ensures |t.kids| == 4 && FirstFit(t.kids, m) == FirstQuadrant(t.bounds, m)
  {
    hide ContainsMBR, Quadrant, HoldsOnly;
    var q := FirstFit(t.kids, m);
    assert forall i | 0 <= i < q :: !ContainsMBR(t.kids[i].bounds, m);
    assert forall i | 0 <= i < q :: !ContainsMBR(Quadrant(t.bounds, i), m);
  }

  /** Insertion keeps the placement invariant, the node's bounds and its depth. */
  lemma {:induction false} InsertKeepsPlaced<D>(t: Quad<D>, x: Item<D>, cap: nat, maxDepth: nat)
    requires Placed(t, cap, maxDepth)
    ensures var r := Inserted(t, x, cap, maxDepth);
      && Placed(r, cap, maxDepth) && r.bounds == t.bounds && r.depth == t.depth
      && (forall y | y in r.items :: y in t.items || y == x)
    decreases maxDepth - t.depth, t.kids == []
  {
    hide Split, ContainsMBR, Quadrant, Straddles, FreshKids;
    PlacedIsLayered(t, cap, maxDepth);
    if MustSplit(t, cap, maxDepth) {
      var s := Split(t, cap);
      SplitLayered(t, cap, maxDepth);
      SplitSorts(t, cap, 0);
      SplitEmpties(t, cap);
      FreshIsPlaced(s, cap, maxDepth);
      InsertKeepsPlaced(s, x, cap, maxDepth);
    } else if t.kids != [] {
      FitIsFirstQuadrant(t, x.bounds, cap, maxDepth);
      var q := FirstFit(t.kids, x.bounds);
      if q < 4 {
        var k := t.kids[q];
        assert k in t.kids;
        InsertKeepsPlaced(k, x, cap, maxDepth);
        PlacedKid(t, q, InsertIn(k, x, cap, maxDepth), cap, maxDepth);
      } else {
        PlacedStraddler(t, x, cap, maxDepth);
      }
    }
  }

  lemma SplitEmpties<D>(t: Quad<D>, cap: nat)
    ensures Split(t, cap).items == [] && Split(t, cap).bounds == t.bounds && Split(t, cap).depth == t.depth
  {
  }

  lemma PlacedStraddler<D>(t: Quad<D>, x: Item<D>, cap: nat, maxDepth: nat)
    requires Placed(t, cap, maxDepth) && t.kids != [] && FirstQuadrant(t.bounds, x.bounds) == 4
    ensures Placed(Append(t, x), cap, maxDepth)
  {
    hide Quadrant, HoldsOnly;
  }

  /** The item just inserted is stored, whatever the splits dropped. */
  lemma {:induction false} InsertStoresNew<D>(t: Quad<D>, x: Item<D>, cap: nat, maxDepth: nat)
    requires Layered(t, maxDepth)
    ensures x in All(InsertIn(t, x, cap, maxDepth))
    decreases maxDepth - t.depth, t.kids == []
  {
    hide Split, AllOf, ContainsMBR;
    if MustSplit(t, cap, maxDepth) {
      SplitLayered(t, cap, maxDepth);
      InsertStoresNew(Split(t, cap), x, cap, maxDepth);
    } else {
      var q := FirstFit(t.kids, x.bounds);
      if q < |t.kids| {
        var k := InsertIn(t.kids[q], x, cap, maxDepth);
        InsertStoresNew(t.kids[q], x, cap, maxDepth);
        AllOfMember(t.kids[q := k], q, x);
      }
    }
  }

  /** What one insertion does to the stored items. */
  lemma InsertLedger<D>(t: Quad<D>, x: Item<D>, cap: nat, maxDepth: nat)
    requires Placed(t, cap, maxDepth)
    ensures var r, lost := Inserted(t, x, cap, maxDepth), Lost(t, x, cap, maxDepth);
      && Placed(r, cap, maxDepth) && r.bounds == t.bounds && x in All(r)
      && multiset(All(r)) + multiset(lost) == multiset(All(t)) + multiset{x}
      && |All(r)| + |lost| == |All(t)| + 1
      && (forall y | y in All(r) :: y in All(t) || y == x)
  {
    hide Placed, Layered, InsertIn, InsertDrops, All;
    PlacedIsLayered(t, cap, maxDepth);
    var r, lost := InsertIn(t, x, cap, maxDepth), InsertDrops(t, x, cap, maxDepth);
    InsertKeepsPlaced(t, x, cap, maxDepth);
    InsertStoresNew(t, x, cap, maxDepth);
    InsertAccounts(t, x, cap, maxDepth);
    BagOfAll(t);
    BagOfAll(r);
    assert |multiset(All(r)) + multiset(lost)| == |All(r)| + |lost|;
    assert |multiset(All(t)) + multiset{x}| == |All(t)| + 1;
    forall y | y in All(r) ensures y in All(t) || y == x {
      assert y in multiset(All(r)) + multiset(lost);
    }
  }

  // ---------- When insertion drops nothing ----------

  /** The node an item descends to before any split. */
  function Target<D>(t: Quad<D>, m: MBR): Quad<D> {
    var q := FirstFit(t.kids, m);
    if q < |t.kids| then Target(t.kids[q], m) else t
  }

  /** Splitting around the new rectangle m never meets one of items that straddles the quadrants:
      checked from the rectangles alone, by following m down while all items go the same way. */
  predicate SplitsCleanly<D>(b: MBR, depth: nat, items: seq<Item<D>>, m: MBR, maxDepth: nat)
    decreases maxDepth - depth
  {
    var q := FirstQuadrant(b, m);
    && |Filter(items, GoesTo(b, 4))| == 0
    && (q < 4 && depth + 1 < maxDepth && |Filter(items, GoesTo(b, q))| == |items|
        ==> SplitsCleanly(Quadrant(b, q), depth + 1, items, m, maxDepth))
  }

  lemma {:induction false} FilterShorter<T>(s: seq<T>, keep: T -> bool)
    ensures |Filter(s, keep)| == |s| ==> Filter(s, keep) == s
  {
    if s != [] { FilterShorter(s[1..], keep); }
  }

  /** What a split leaves for the reinsertion of an item with rectangle m. */
  lemma AfterSplit<D>(t: Quad<D>, m: MBR, cap: nat, maxDepth: nat)
    requires Placed(t, cap, maxDepth) && MustSplit(t, cap, maxDepth)
    ensures var s, q := Split(t, cap), FirstQuadrant(t.bounds, m);
      && Placed(s, cap, maxDepth) && Layered(s, maxDepth) && s.depth == t.depth
      && |s.kids| == 4 && FirstFit(s.kids, m) == q
      && (q < 4 ==>
            && s.kids[q] == Quad(Quadrant(t.bounds, q), t.depth + 1, Filter(t.items, GoesTo(t.bounds, q)), [])
            && Placed(s.kids[q], cap, maxDepth) && Layered(s.kids[q], maxDepth))
  {
    hide Split, ContainsMBR, Quadrant, GoesTo, FreshKids, HoldsOnly, Filter;
    var s := Split(t, cap);
    SplitLayered(t, cap, maxDepth);
    SplitSorts(t, cap, 0);
    SplitEmpties(t, cap);
    FreshIsPlaced(s, cap, maxDepth);
    FitIsFirstQuadrant(s, m, cap, maxDepth);
    var q := FirstQuadrant(t.bounds, m);
    if q < 4 {
      SplitSorts(t, cap, q);
      FreshKid(s.kids, t.bounds, t.depth + 1, cap, q);
      assert s.kids[q] in s.kids;
    }
  }

  /** A full leaf loses items to its splits exactly when they do not split cleanly. */
  lemma {:induction false} LeafDropsNothing<D>(t: Quad<D>, x: Item<D>, cap: nat, maxDepth: nat)
    requires Placed(t, cap, maxDepth) && cap > 0 && MustSplit(t, cap, maxDepth)
    ensures Lost(t, x, cap, maxDepth) == [] <==> SplitsCleanly(t.bounds, t.depth, t.items, x.bounds, maxDepth)
    decreases maxDepth - t.depth
  {
    hide Split, SplitDrops, FirstFit, FirstQuadrant, Quadrant, GoesTo, Filter, Placed, Layered;
    var s, q := Split(t, cap), FirstQuadrant(t.bounds, x.bounds);
    PlacedIsLayered(t, cap, maxDepth);
    LeafCapacity(t, cap, maxDepth);
    AfterSplit(t, x.bounds, cap, maxDepth);
    SplitDropsStraddlers(t, cap);
    assert InsertDrops(t, x, cap, maxDepth) == SplitDrops(t, cap) + InsertDrops(s, x, cap, maxDepth);
    if q < 4 {
      var k := s.kids[q];
      assert InsertDrops(s, x, cap, maxDepth) == InsertDrops(k, x, cap, maxDepth);
      FilterShorter(t.items, GoesTo(t.bounds, q));
      if MustSplit(k, cap, maxDepth) {
        LeafDropsNothing(k, x, cap, maxDepth);
      } else {
        assert InsertDrops(k, x, cap, maxDepth) == [];
      }
    }
  }

  lemma LeafCapacity<D>(t: Quad<D>, cap: nat, maxDepth: nat)
    requires Placed(t, cap, maxDepth) && t.kids == [] && t.depth < maxDepth
    ensures |t.items| <= cap
  {
  }

  lemma FreshKid<D>(kids: seq<Quad<D>>, b: MBR, depth: nat, n: nat, q: nat)
    requires FreshKids(kids, b, depth, n) && q < 4
    ensures |kids| == 4 && kids[q].bounds == Quadrant(b, q) && kids[q].depth == depth && kids[q].kids == []
    ensures |kids[q].items| <= n
  {
    hide Quadrant, HoldsOnly;
  }

  /** Insertion keeps every stored item exactly when the target is not a full leaf or splits cleanly. */
  lemma {:induction false} InsertDropsNothing<D>(t: Quad<D>, x: Item<D>, cap: nat, maxDepth: nat)
    requires Placed(t, cap, maxDepth) && cap > 0
    ensures var leaf := Target(t, x.bounds);
      Lost(t, x, cap, maxDepth) == [] <==>
        (MustSplit(leaf, cap, maxDepth) ==> SplitsCleanly(leaf.bounds, leaf.depth, leaf.items, x.bounds, maxDepth))
    decreases t
  {
    hide ContainsMBR, Quadrant, SplitsCleanly;
    PlacedIsLayered(t, cap, maxDepth);
    if MustSplit(t, cap, maxDepth) {
      LeafDropsNothing(t, x, cap, maxDepth);
    } else {
      var q := FirstFit(t.kids, x.bounds);
      if q < |t.kids| {
        assert t.kids[q] in t.kids;
        InsertDropsNothing(t.kids[q], x, cap, maxDepth);
      }
    }
  }

  /** A stored rectangle across the centre is lost when a second insertion makes its leaf split. */
  lemma InsertCanDrop<D>(b: MBR, x: Item<D>, y: Item<D>)
    requires b == MBR(0.0, 0.0, 8.0, 8.0) && x.bounds == MBR(3.0, 3.0, 5.0, 5.0)
    requires x != y && Intersects(b, y.bounds)
    ensures var t := Quad(b, 0, [x], []);
      && Placed(t, 1, 20) && ContainsMBR(b, x.bounds)
      && x in All(t) && x !in All(Inserted(t, y, 1, 20))
  {
    var t := Quad(b, 0, [x], []);
    Straddler(b, x.bounds);
    hide Quadrant, ContainsMBR, FirstQuadrant;
    SplitDropsStraddlers(t, 1);
    SplitLayered(t, 1, 20);
    InsertAccounts(t, y, 1, 20);
    BagOfAll(t);
    BagOfAll(InsertIn(t, y, 1, 20));
    assert All(t) == [x];
    var kept, lost := multiset(All(InsertIn(t, y, 1, 20))), multiset(InsertDrops(t, y, 1, 20));
    assert lost[x] >= 1;
    assert (kept + lost)[x] == 1;
  }

  lemma Straddler(b: MBR, m: MBR)
    requires b == MBR(0.0, 0.0, 8.0, 8.0) && m == MBR(3.0, 3.0, 5.0, 5.0)
    ensures FirstQuadrant(b, m) == 4 && ContainsMBR(b, m)
  {
  }

  // ---------- Queries ----------

  function Meets<D>(range: MBR): Item<D> -> bool {
    (x: Item<D>) => Intersects(x.bounds, range)
  }

  function Covers<D>(p: Point): Item<D> -> bool {
    (x: Item<D>) => ContainsPoint(x.bounds, p)
  }

  /** Which items the queries keep, in coordinates: touching counts as meeting. */
  lemma HitsMean<D>(x: Item<D>, range: MBR, p: Point)
    requires x.bounds.minX <= x.bounds.maxX && x.bounds.minY <= x.bounds.maxY
    requires range.minX <= range.maxX && range.minY <= range.maxY
    ensures var b := x.bounds;
      && (Meets<D>(range)(x) <==>
            b.minX <= range.maxX && range.minX <= b.maxX && b.minY <= range.maxY && range.minY <= b.maxY)
      && (Covers<D>(p)(x) <==> b.minX <= p.x <= b.maxX && b.minY <= p.y <= b.maxY)
  {
  }

  function RangeIn<D>(t: Quad<D>, range: MBR): seq<Item<D>>
    decreases t, 1
  {
    if !Intersects(t.bounds, range) then [] else Filter(t.items, Meets(range)) + RangeOf(t.kids, range)
  }

  function RangeOf<D>(ts: seq<Quad<D>>, range: MBR): seq<Item<D>>
    decreases ts, 0
  {
    if ts == [] then [] else RangeIn(ts[0], range) + RangeOf(ts[1..], range)
  }

  function PointIn<D>(t: Quad<D>, p: Point): seq<Item<D>>
    decreases t, 1
  {
    if !ContainsPoint(t.bounds, p) then [] else Filter(t.items, Covers(p)) + PointOf(t.kids, p)
  }

  function PointOf<D>(ts: seq<Quad<D>>, p: Point): seq<Item<D>>
    decreases ts, 0
  {
    if ts == [] then [] else PointIn(ts[0], p) + PointOf(ts[1..], p)
  }

  /** What lies inside b meets a range only if b does. */
  lemma InsideMeets(b: MBR, m: MBR, range: MBR)
    requires ContainsMBR(b, m) && Intersects(m, range)
    ensures Intersects(b, range)
  {
  }

  /** A range query that reaches the root's bounds is the scan of all items; any other returns nothing. */
  lemma {:induction false} RangeIsScan<D>(t: Quad<D>, range: MBR, cap: nat, maxDepth: nat)
    requires Placed(t, cap, maxDepth)
    ensures RangeIn(t, range) == if Intersects(t.bounds, range) then Filter(All(t), Meets(range)) else []
    decreases t, 1
  {
    hide Intersects, Quadrant, Straddles, Filter;
    RangeOfIsScan(t.kids, range, cap, maxDepth);
    FilterConcat(t.items, AllOf(t.kids), Meets(range));
  }

  /** Below the root pruning loses nothing at all. */
  lemma {:induction false} RangeOfIsScan<D>(ts: seq<Quad<D>>, range: MBR, cap: nat, maxDepth: nat)
    requires forall k | k in ts :: HoldsOnly(k) && Placed(k, cap, maxDepth)
    ensures RangeOf(ts, range) == Filter(AllOf(ts), Meets(range))
    decreases ts, 0
  {
    hide Intersects, ContainsMBR, HoldsOnly, Placed;
    if ts != [] {
      var k := ts[0];
      assert k in ts;
      RangeIsScan(k, range, cap, maxDepth);
      if !Intersects(k.bounds, range) {
        SubtreeInside(k, cap, maxDepth);
        forall x | x in All(k) ensures !Meets<D>(range)(x) {
          if Intersects(x.bounds, range) { InsideMeets(k.bounds, x.bounds, range); }
        }
        FilterNone(All(k), Meets<D>(range));
      }
      RangeOfIsScan(ts[1..], range, cap, maxDepth);
      FilterConcat(All(k), AllOf(ts[1..]), Meets(range));
    }
  }

  lemma {:induction false} PointIsScan<D>(t: Quad<D>, p: Point, cap: nat, maxDepth: nat)
    requires Placed(t, cap, maxDepth)
    ensures PointIn(t, p) == if ContainsPoint(t.bounds, p) then Filter(All(t), Covers(p)) else []
    decreases t, 1
  {
    hide ContainsPoint, Quadrant, Straddles, Filter;
    PointOfIsScan(t.kids, p, cap, maxDepth);
    FilterConcat(t.items, AllOf(t.kids), Covers(p));
  }

  lemma {:induction false} PointOfIsScan<D>(ts: seq<Quad<D>>, p: Point, cap: nat, maxDepth: nat)
    requires forall k | k in ts :: HoldsOnly(k) && Placed(k, cap, maxDepth)
    ensures PointOf(ts, p) == Filter(AllOf(ts), Covers(p))
    decreases ts, 0
  {
    hide ContainsPoint, ContainsMBR, HoldsOnly, Placed;
    if ts != [] {
      var k := ts[0];
      assert k in ts;
      PointIsScan(k, p, cap, maxDepth);
      if !ContainsPoint(k.bounds, p) {
        SubtreeInside(k, cap, maxDepth);
        forall x | x in All(k) ensures !Covers<D>(p)(x) { ContainsMeansSubset(k.bounds, x.bounds); }
        FilterNone(All(k), Covers<D>(p));
      }
      PointOfIsScan(ts[1..], p, cap, maxDepth);
      FilterConcat(All(k), AllOf(ts[1..]), Covers(p));
    }
  }

  /** With all items inside the root bounds, range and point queries are exact for every argument. */
  lemma QueriesExact<D>(t: Quad<D>, range: MBR, p: Point, cap: nat, maxDepth: nat)
    requires Placed(t, cap, maxDepth) && forall x | x in All(t) :: ContainsMBR(t.bounds, x.bounds)
    ensures RangeIn(t, range) == Filter(All(t), Meets(range))
    ensures PointIn(t, p) == Filter(All(t), Covers(p))
  {
    RangeOfIsScan([t], range, cap, maxDepth) by { InsideRoot(t); }
    PointOfIsScan([t], p, cap, maxDepth) by { InsideRoot(t); }
    assert AllOf([t]) == All(t) + AllOf([]) == All(t);
    assert RangeOf([t], range) == RangeIn(t, range) + RangeOf([], range);
    assert PointOf([t], p) == PointIn(t, p) + PointOf([], p);
  }

  lemma InsideRoot<D>(t: Quad<D>)
    requires forall x | x in All(t) :: ContainsMBR(t.bounds, x.bounds)
    ensures HoldsOnly(t)
  {
    assert forall x | x in t.items :: x in All(t);
  }

  // ---------- Lookup and removal by id ----------

  function IndexOf<D>(items: seq<Item<D>>, id: nat): (i: nat)
    ensures i <= |items|
    ensures i < |items| ==> items[i].id == id
    ensures forall j | 0 <= j < i :: items[j].id != id
  {
    FirstIndex(items, (x: Item<D>) => x.id == id)
  }

  function FindIn<D>(t: Quad<D>, id: nat): Option<Item<D>>
    decreases t, 1
  {
    var i := IndexOf(t.items, id);
    if i < |t.items| then Some(t.items[i]) else FindOf(t.kids, id)
  }

  function FindOf<D>(ts: seq<Quad<D>>, id: nat): Option<Item<D>>
    decreases ts, 0
  {
    if ts == [] then None
    else
      var r := FindIn(ts[0], id);
      if r.Some? then r else FindOf(ts[1..], id)
  }

  function RemoveIn<D>(t: Quad<D>, id: nat): Option<Quad<D>>
    decreases t, 1
  {
    var i := IndexOf(t.items, id);
    if i < |t.items| then Some(t.(items := Without(t.items, i)))
    else
      match RemoveOf(t.kids, id)
      case None => None
      case Some(kids) => Some(t.(kids := kids))
  }

  function RemoveOf<D>(ts: seq<Quad<D>>, id: nat): Option<seq<Quad<D>>>
    decreases ts, 0
  {
    if ts == [] then None
    else
      match RemoveIn(ts[0], id)
      case Some(k) => Some([k] + ts[1..])
      case None =>
        match RemoveOf(ts[1..], id)
        case None => None
        case Some(rest) => Some([ts[0]] + rest)
  }

  lemma {:induction false} IndexOfUnique<D>(s: seq<Item<D>>, id: nat, i: nat)
    requires i <= |s| && (i < |s| ==> s[i].id == id) && forall j | 0 <= j < i :: s[j].id != id
    ensures IndexOf(s, id) == i
  {
    var k := IndexOf(s, id);
    assert i < |s| ==> k <= i;
  }

  lemma IndexOfConcat<D>(a: seq<Item<D>>, b: seq<Item<D>>, id: nat)
    ensures IndexOf(a + b, id) == if IndexOf(a, id) < |a| then IndexOf(a, id) else |a| + IndexOf(b, id)
  {
    hide IndexOf;
    var i := if IndexOf(a, id) < |a| then IndexOf(a, id) else |a| + IndexOf(b, id);
    IndexOfUnique(a + b, id, i);
  }

  /** Lookup returns the first item with this id among all, and fails only if there is none. */
  lemma {:induction false} FindIsFirst<D>(t: Quad<D>, id: nat)
    ensures var i := IndexOf(All(t), id);
      FindIn(t, id) == if i < |All(t)| then Some(All(t)[i]) else None
    decreases t, 1
  {
    hide IndexOf;
    FindOfIsFirst(t.kids, id);
    IndexOfConcat(t.items, AllOf(t.kids), id);
  }

  lemma {:induction false} FindOfIsFirst<D>(ts: seq<Quad<D>>, id: nat)
    ensures var i := IndexOf(AllOf(ts), id);
      FindOf(ts, id) == if i < |AllOf(ts)| then Some(AllOf(ts)[i]) else None
    decreases ts, 0
  {
    hide IndexOf;
    if ts != [] {
      FindIsFirst(ts[0], id);
      FindOfIsFirst(ts[1..], id);
      IndexOfConcat(All(ts[0]), AllOf(ts[1..]), id);
    } else {
      IndexOfUnique<D>([], id, 0);
    }
  }

  /** Removal takes out the first item with this id and leaves all others in order. */
  lemma {:induction false} RemoveIsFirst<D>(t: Quad<D>, id: nat)
    ensures var i := IndexOf(All(t), id);
      match RemoveIn(t, id)
      case None => i == |All(t)|
      case Some(r) => i < |All(t)| && All(r) == Without(All(t), i)
    decreases t, 1
  {
    hide IndexOf, Without;
    RemoveOfIsFirst(t.kids, id);
    IndexOfConcat(t.items, AllOf(t.kids), id);
    var i := IndexOf(All(t), id);
    if i < |All(t)| { WithoutConcat(t.items, AllOf(t.kids), i); }
  }

  lemma {:induction false} RemoveOfIsFirst<D>(ts: seq<Quad<D>>, id: nat)
    ensures var i := IndexOf(AllOf(ts), id);
      match RemoveOf(ts, id)
      case None => i == |AllOf(ts)|
      case Some(rs) => i < |AllOf(ts)| && AllOf(rs) == Without(AllOf(ts), i)
    decreases ts, 0
  {
    hide IndexOf, Without;
    if ts != [] {
      RemoveIsFirst(ts[0], id);
      RemoveOfIsFirst(ts[1..], id);
      IndexOfConcat(All(ts[0]), AllOf(ts[1..]), id);
      var i := IndexOf(AllOf(ts), id);
      if i < |AllOf(ts)| { WithoutConcat(All(ts[0]), AllOf(ts[1..]), i); }
      match RemoveIn(ts[0], id)
      case Some(k) => assert ([k] + ts[1..])[1..] == ts[1..];
      case None =>
        match RemoveOf(ts[1..], id)
        case Some(rest) => assert ([ts[0]] + rest)[1..] == rest;
        case None =>
    } else {
      IndexOfUnique<D>([], id, 0);
    }
  }

  /** Removal keeps the placement invariant, the node's bounds and its depth. */
  lemma {:induction false} RemoveKeepsPlaced<D>(t: Quad<D>, id: nat, cap: nat, maxDepth: nat)
    requires Placed(t, cap, maxDepth) && RemoveIn(t, id).Some?
    ensures var r := RemoveIn(t, id).value;
      && Placed(r, cap, maxDepth) && r.bounds == t.bounds && r.depth == t.depth
      && (forall x | x in r.items :: x in t.items)
    decreases t, 1
  {
    hide Straddles, Quadrant, ContainsMBR;
    if IndexOf(t.items, id) == |t.items| {
      RemoveOfKeepsPlaced(t.kids, id, cap, maxDepth);
    }
  }

  lemma {:induction false} RemoveOfKeepsPlaced<D>(ts: seq<Quad<D>>, id: nat, cap: nat, maxDepth: nat)
    requires forall k | k in ts :: HoldsOnly(k) && Placed(k, cap, maxDepth)
    requires RemoveOf(ts, id).Some?
    ensures var rs := RemoveOf(ts, id).value;
      && |rs| == |ts|
      && (forall i | 0 <= i < |ts| :: rs[i].bounds == ts[i].bounds && rs[i].depth == ts[i].depth)
      && (forall k | k in rs :: HoldsOnly(k) && Placed(k, cap, maxDepth))
    decreases ts, 0
  {
    hide ContainsMBR, Placed;
    var k := ts[0];
    assert k in ts;
    if RemoveIn(k, id).Some? {
      RemoveKeepsPlaced(k, id, cap, maxDepth);
    } else {
      RemoveOfKeepsPlaced(ts[1..], id, cap, maxDepth);
    }
  }

  // ---------- Adjacency ----------

  const EPSILON := 0.000000001

  /** Within EPSILON of each other on both axes. */
  predicate Adjacent(a: MBR, b: MBR) {
    !(a.maxX + EPSILON < b.minX || a.minX - EPSILON > b.maxX || a.maxY + EPSILON < b.minY || a.minY - EPSILON > b.maxY)
  }

  function AdjacentTo<D>(region: MBR): Item<D> -> bool {
    (x: Item<D>) => Adjacent(x.bounds, region)
  }

  /** The gap between adjacent rectangles is at most a billionth on both axes; rectangles that meet have none. */
  lemma AdjacentMeans(a: MBR, b: MBR)
    ensures Adjacent(a, b) <==>
      && b.minX - a.maxX <= 0.000000001 && a.minX - b.maxX <= 0.000000001
      && b.minY - a.maxY <= 0.000000001 && a.minY - b.maxY <= 0.000000001
    ensures Intersects(a, b) ==> Adjacent(a, b)
  {
  }

  /** How far the pruning query reaches beyond a region of this extent: one percent, at least 1e-6. */
  function Margin(extent: real): real {
    if extent * 0.01 < 0.000001 then 0.000001 else extent * 0.01
  }

  function Widened(region: MBR): MBR {
    var dx, dy := Margin(region.maxX - region.minX), Margin(region.maxY - region.minY);
    MBR(region.minX - dx, region.minY - dy, region.maxX + dx, region.maxY + dy)
  }

  /** The pruning query is wide enough: it meets every rectangle the adjacency filter would keep. */
  lemma WidenedMeetsAdjacent(m: MBR, region: MBR)
    requires !IsEmpty(region) && !IsEmpty(m) && Adjacent(m, region)
    ensures Intersects(m, Widened(region))
  {
  }

  function AdjacentIn<D>(t: Quad<D>, region: MBR): seq<Item<D>> {
    Filter(RangeIn(t, Widened(region)), AdjacentTo(region))
  }

  /** The adjacency query: all adjacent items, unless even the widened region misses the root's bounds. */
  lemma AdjacencyIsScan<D>(t: Quad<D>, region: MBR, cap: nat, maxDepth: nat)
    requires Placed(t, cap, maxDepth) && !IsEmpty(region)
    requires forall x | x in All(t) :: !IsEmpty(x.bounds)
    ensures AdjacentIn(t, region)
         == if Intersects(t.bounds, Widened(region)) then Filter(All(t), AdjacentTo(region)) else []
  {
    hide Intersects, Widened, Adjacent;
    RangeIsScan(t, Widened(region), cap, maxDepth);
    if Intersects(t.bounds, Widened(region)) {
      forall x | x in All(t) && AdjacentTo<D>(region)(x) ensures Meets<D>(Widened(region))(x) {
        WidenedMeetsAdjacent(x.bounds, region);
      }
      FilterTwice(All(t), Meets<D>(Widened(region)), AdjacentTo<D>(region));
    }
  }

  /** With all items inside the root bounds the adjacency query is exact for every non-empty region. */
  lemma AdjacencyExact<D>(t: Quad<D>, region: MBR, cap: nat, maxDepth: nat)
    requires Placed(t, cap, maxDepth) && !IsEmpty(region)
    requires forall x | x in All(t) :: ContainsMBR(t.bounds, x.bounds)
    ensures AdjacentIn(t, region) == Filter(All(t), AdjacentTo(region))
  {
    hide Intersects, Widened, Adjacent;
    QueriesExact(t, Widened(region), Point(0.0, 0.0), cap, maxDepth);
    forall x | x in All(t) && AdjacentTo<D>(region)(x) ensures Meets<D>(Widened(region))(x) {
      WidenedMeetsAdjacent(x.bounds, region);
    }
    FilterTwice(All(t), Meets<D>(Widened(region)), AdjacentTo<D>(region));
  }
}
