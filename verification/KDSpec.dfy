// The values the KD-tree of src/kdtree.c goes through, and what its queries mean.
module KDSpec {
  import opened Geometry
  import opened Seqs

  /** A stored point: its coordinates, its object id and the caller's data. */
  datatype Entry<D> = Entry(point: Point, id: nat, data: D)

  datatype Tree<D> =
    | Nil
    | Node(entry: Entry<D>, dim: nat, left: Tree<D>, right: Tree<D>, bounds: MBR, size: nat)

  function Coord(p: Point, dim: nat): real {
    if dim == 0 then p.x else p.y
  }

  /** The stored entries, each node before its subtrees. */
  function Elements<D>(t: Tree<D>): seq<Entry<D>> {
    match t
    case Nil => []
    case Node(e, _, l, r, _, _) => [e] + Elements(l) + Elements(r)
  }

  lemma NodesStore<D>(t: Tree<D>)
    ensures t.Nil? <==> Elements(t) == []
  {
  }

  // ---------- The invariant ----------

  /** Ties with the splitting coordinate may sit on either side: bulk loading can put them on the left. */
  ghost predicate Ordered<D>(t: Tree<D>) {
    match t
    case Nil => true
    case Node(e, d, l, r, _, _) =>
      && (forall x | x in Elements(l) :: Coord(x.point, d) <= Coord(e.point, d))
      && (forall x | x in Elements(r) :: Coord(e.point, d) <= Coord(x.point, d))
      && Ordered(l) && Ordered(r)
  }

  /** b is the smallest rectangle around the points of s. */
  ghost predicate Tight<D>(b: MBR, s: seq<Entry<D>>) {
    && (forall x | x in s :: ContainsPoint(b, x.point))
    && (exists x | x in s :: x.point.x == b.minX)
    && (exists x | x in s :: x.point.x == b.maxX)
    && (exists x | x in s :: x.point.y == b.minY)
    && (exists x | x in s :: x.point.y == b.maxY)
  }

  /** Every node records its depth's dimension, the tight bounds and the size of its subtree. */
  ghost predicate Annotated<D>(t: Tree<D>, depth: nat) {
    match t
    case Nil => true
    case Node(_, d, l, r, b, n) =>
      && d == depth % 2
      && n == |Elements(t)|
      && Tight(b, Elements(t))
      && Annotated(l, depth + 1) && Annotated(r, depth + 1)
  }

  ghost predicate WellFormed<D>(t: Tree<D>, depth: nat) {
    Ordered(t) && Annotated(t, depth)
  }

  /** Every subtree splits its remaining entries in half, as the median of a bulk load does. */
  ghost predicate Halved<D>(t: Tree<D>) {
    match t
    case Nil => true
    case Node(_, _, l, r, _, _) =>
      && |Elements(l)| == |Elements(t)| / 2
      && Halved(l) && Halved(r)
  }

  /** The first split is by x, the next by y, and so on in turn. */
  lemma SidesByDepth<D>(t: Tree<D>, depth: nat)
    requires WellFormed(t, depth) && t.Node?
    ensures depth % 2 == 0 ==>
      && (forall e | e in Elements(t.left) :: e.point.x <= t.entry.point.x)
      && (forall e | e in Elements(t.right) :: t.entry.point.x <= e.point.x)
    ensures depth % 2 == 1 ==>
      && (forall e | e in Elements(t.left) :: e.point.y <= t.entry.point.y)
      && (forall e | e in Elements(t.right) :: t.entry.point.y <= e.point.y)
    ensures WellFormed(t.left, depth + 1) && WellFormed(t.right, depth + 1)
  {
    hide Elements, Tight;
    forall e | e in Elements(t.left)
      ensures if t.dim == 0 then e.point.x <= t.entry.point.x else e.point.y <= t.entry.point.y
    {
      assert Coord(e.point, t.dim) <= Coord(t.entry.point, t.dim);
    }
    forall e | e in Elements(t.right)
      ensures if t.dim == 0 then t.entry.point.x <= e.point.x else t.entry.point.y <= e.point.y
    {
      assert Coord(t.entry.point, t.dim) <= Coord(e.point, t.dim);
    }
  }

  // ---------- Insertion ----------

  function Leaf<D>(e: Entry<D>, depth: nat): Tree<D> {
    Node(e, depth % 2, Nil, Nil, PointMBR(e.point), 1)
  }

  function InsertTree<D>(t: Tree<D>, e: Entry<D>, depth: nat): Tree<D> {
    match t
    case Nil => Leaf(e, depth)
    case Node(x, d, l, r, b, n) =>
      if Coord(e.point, d) < Coord(x.point, d)
      then Node(x, d, InsertTree(l, e, depth + 1), r, ExpandPoint(b, e.point), n + 1)
      else Node(x, d, l, InsertTree(r, e, depth + 1), ExpandPoint(b, e.point), n + 1)
  }

  /** The stored entries as a multiset, computed along the tree. */
  ghost function Bag<D>(t: Tree<D>): multiset<Entry<D>> {
    match t
    case Nil => multiset{}
    case Node(e, _, l, r, _, _) => multiset{e} + Bag(l) + Bag(r)
  }

  lemma {:induction false} BagOfElements<D>(t: Tree<D>)
    ensures multiset(Elements(t)) == Bag(t)
  {
    match t
    case Nil =>
    case Node(e, _, l, r, _, _) =>
      BagOfElements(l);
      BagOfElements(r);
  }

  lemma {:induction false} InsertGrowsBag<D>(t: Tree<D>, e: Entry<D>, depth: nat)
    ensures Bag(InsertTree(t, e, depth)) == Bag(t) + multiset{e}
  {
    hide ExpandPoint, PointMBR, Coord;
    match t
    case Nil =>
    case Node(x, d, l, r, _, _) =>
      InsertGrowsBag(l, e, depth + 1);
      InsertGrowsBag(r, e, depth + 1);
  }

  /** Insertion adds the new entry and keeps all others. */
  lemma InsertAddsOne<D>(t: Tree<D>, e: Entry<D>, depth: nat)
    ensures multiset(Elements(InsertTree(t, e, depth))) == multiset(Elements(t)) + multiset{e}
  {
    hide *;
    InsertGrowsBag(t, e, depth);
    BagOfElements(t);
    BagOfElements(InsertTree(t, e, depth));
  }

  lemma InsertMembers<D>(t: Tree<D>, e: Entry<D>, depth: nat)
    ensures forall x | x in Elements(InsertTree(t, e, depth)) :: x == e || x in Elements(t)
    ensures forall x | x in Elements(t) :: x in Elements(InsertTree(t, e, depth))
    ensures e in Elements(InsertTree(t, e, depth))
    ensures |Elements(InsertTree(t, e, depth))| == |Elements(t)| + 1
  {
    InsertAddsOne(t, e, depth);
    var s := Elements(InsertTree(t, e, depth));
    forall x | x in s ensures x == e || x in Elements(t) {
      assert x in multiset(s);
    }
    forall x | x in Elements(t) ensures x in s {
      assert x in multiset(s);
    }
    assert e in multiset(s);
    assert |multiset(s)| == |s| && |multiset(Elements(t))| == |Elements(t)|;
  }

  lemma PointTight<D>(e: Entry<D>)
    ensures Tight(PointMBR(e.point), [e])
  {
    assert e in [e];
  }

  lemma TightAfterInsert<D>(b: MBR, s: seq<Entry<D>>, e: Entry<D>, t: seq<Entry<D>>)
    requires Tight(b, s)
    requires e in t
    requires forall x | x in t :: x == e || x in s
    requires forall x | x in s :: x in t
    ensures Tight(ExpandPoint(b, e.point), t)
  {
  }

  lemma {:induction false} InsertKeepsOrdered<D>(t: Tree<D>, e: Entry<D>, depth: nat)
    requires Ordered(t)
    ensures Ordered(InsertTree(t, e, depth))
  {
    hide Coord, ExpandPoint, PointMBR;
    match t
    case Nil =>
    case Node(x, d, l, r, _, _) =>
      if Coord(e.point, d) < Coord(x.point, d) {
        InsertKeepsOrdered(l, e, depth + 1);
        InsertMembers(l, e, depth + 1);
      } else {
        InsertKeepsOrdered(r, e, depth + 1);
        InsertMembers(r, e, depth + 1);
      }
  }

  lemma {:induction false} InsertKeepsAnnotated<D>(t: Tree<D>, e: Entry<D>, depth: nat)
    requires Annotated(t, depth)
    ensures Annotated(InsertTree(t, e, depth), depth)
  {
    hide Coord, ExpandPoint, PointMBR, Tight;
    InsertMembers(t, e, depth);
    match t
    case Nil =>
      PointTight(e);
      assert Elements(Leaf(e, depth)) == [e];
    case Node(x, d, l, r, b, n) =>
      TightAfterInsert(b, Elements(t), e, Elements(InsertTree(t, e, depth)));
      InsertKeepsAnnotated(l, e, depth + 1);
      InsertKeepsAnnotated(r, e, depth + 1);
  }

  /** Insertion keeps the ordering, the bounds, the sizes and the alternation of dimensions. */
  lemma InsertKeepsWellFormed<D>(t: Tree<D>, e: Entry<D>, depth: nat)
    requires WellFormed(t, depth)
    ensures WellFormed(InsertTree(t, e, depth), depth)
  {
    hide Ordered, Annotated;
    InsertKeepsOrdered(t, e, depth);
    InsertKeepsAnnotated(t, e, depth);
  }

  ghost predicate AllFinite<D>(s: seq<Entry<D>>) {
    forall e | e in s :: Finite(e.point)
  }

  /** The running bounds of a whole tree: the empty rectangle before the first point. */
  ghost predicate Encloses<D>(b: MBR, s: seq<Entry<D>>) {
    AllFinite(s) ==> if s == [] then b == EMPTY_MBR else Tight(b, s)
  }

  lemma EnclosesInsert<D>(b: MBR, s: seq<Entry<D>>, e: Entry<D>, t: seq<Entry<D>>)
    requires Encloses(b, s)
    requires multiset(t) == multiset(s) + multiset{e}
    ensures Encloses(ExpandPoint(b, e.point), t)
  {
    forall x | x in t ensures x == e || x in s { assert x in multiset(t); }
    forall x | x in s ensures x in t { assert x in multiset(t); }
    assert e in t by { assert e in multiset(t); }
    if s != [] && AllFinite(t) { TightAfterInsert(b, s, e, t); }
  }

  lemma EnclosesEmpty<D>()
    ensures Encloses<D>(EMPTY_MBR, [])
  {
  }

  lemma EnclosesPermutation<D>(b: MBR, s: seq<Entry<D>>, t: seq<Entry<D>>)
    requires Encloses(b, s) && multiset(s) == multiset(t)
    ensures Encloses(b, t)
  {
    SameMultiset(s, t);
  }

  lemma SameMultiset<D>(s: seq<Entry<D>>, t: seq<Entry<D>>)
    requires multiset(s) == multiset(t)
    ensures |s| == |t|
    ensures forall x | x in s :: x in t
    ensures forall x | x in t :: x in s
  {
    assert |multiset(s)| == |multiset(t)|;
    forall x | x in s ensures x in t { assert x in multiset(t); }
    forall x | x in t ensures x in s { assert x in multiset(s); }
  }

  // ---------- Bulk loading ----------

  /** What kdnode_update_bounds stores in a node above the given subtrees. */
  function JoinedBounds<D>(e: Entry<D>, l: Tree<D>, r: Tree<D>): MBR {
    var b := PointMBR(e.point);
    var b' := if l.Node? then ExpandMBR(b, l.bounds) else b;
    if r.Node? then ExpandMBR(b', r.bounds) else b'
  }

  function JoinedSize<D>(l: Tree<D>, r: Tree<D>): nat {
    1 + (if l.Node? then l.size else 0) + (if r.Node? then r.size else 0)
  }

  function Joined<D>(e: Entry<D>, dim: nat, l: Tree<D>, r: Tree<D>): Tree<D> {
    Node(e, dim, l, r, JoinedBounds(e, l, r), JoinedSize(l, r))
  }

  lemma JoinIsAnnotated<D>(e: Entry<D>, l: Tree<D>, r: Tree<D>, depth: nat)
    requires Annotated(l, depth + 1) && Annotated(r, depth + 1)
    ensures Annotated(Joined(e, depth % 2, l, r), depth)
  {
    var t := Joined(e, depth % 2, l, r);
    var mid := if l.Node? then ExpandMBR(PointMBR(e.point), l.bounds) else PointMBR(e.point);
    assert Elements(t) == ([e] + Elements(l)) + Elements(r);
    PointTight(e);
    if l.Node? { TightJoin(PointMBR(e.point), [e], l.bounds, Elements(l)); }
    else { assert [e] + Elements(l) == [e]; }
    if r.Node? { TightJoin(mid, [e] + Elements(l), r.bounds, Elements(r)); }
    else { assert [e] + Elements(l) + Elements(r) == [e] + Elements(l); }
  }

  lemma TightJoin<D>(a: MBR, s: seq<Entry<D>>, b: MBR, t: seq<Entry<D>>)
    requires Tight(a, s) && Tight(b, t)
    ensures Tight(ExpandMBR(a, b), s + t)
  {
    forall x | x in s + t ensures ContainsPoint(ExpandMBR(a, b), x.point) {
      assert x in s || x in t;
    }
    assert forall x | x in s || x in t :: x in s + t;
  }

  ghost function BagOf<D>(s: seq<Entry<D>>): multiset<Entry<D>> { multiset(s) }

  ghost predicate SortedBy<D>(s: seq<Entry<D>>, dim: nat) {
    forall i, j | 0 <= i < j < |s| :: Coord(s[i].point, dim) <= Coord(s[j].point, dim)
  }

  /** t can result from a bulk load: every node is the median of some sort of its subtree's entries. */
  ghost predicate Built<D>(t: Tree<D>, depth: nat) {
    match t
    case Nil => true
    case Node(e, d, l, r, _, _) =>
      && t == Joined(e, depth % 2, l, r)
      && (forall x | x in Elements(l) :: Coord(x.point, d) <= Coord(e.point, d))
      && (forall x | x in Elements(r) :: Coord(e.point, d) <= Coord(x.point, d))
      && |Elements(l)| == |Elements(t)| / 2
      && Built(l, depth + 1) && Built(r, depth + 1)
  }

  lemma BuiltNil<D>(depth: nat)
    ensures Built<D>(Nil, depth) && Bag<D>(Nil) == BagOf<D>([])
  {
  }

  /** What sorting establishes around the median, for any permutation of the two sides. */
  lemma MedianSeparates<D>(low: seq<Entry<D>>, e: Entry<D>, high: seq<Entry<D>>, dim: nat,
                           l: seq<Entry<D>>, r: seq<Entry<D>>)
    requires SortedBy(low + [e] + high, dim)
    requires multiset(l) == multiset(low) && multiset(r) == multiset(high)
    ensures forall x | x in l :: Coord(x.point, dim) <= Coord(e.point, dim)
    ensures forall x | x in r :: Coord(e.point, dim) <= Coord(x.point, dim)
    ensures |l| == |low| && |r| == |high|
  {
    var s := low + [e] + high;
    assert e == s[|low|];
    forall x | x in l ensures Coord(x.point, dim) <= Coord(e.point, dim) {
      assert x in multiset(low);
      var i :| 0 <= i < |low| && low[i] == x;
      assert s[i] == x;
    }
    forall x | x in r ensures Coord(e.point, dim) <= Coord(x.point, dim) {
      assert x in multiset(high);
      var i :| 0 <= i < |high| && high[i] == x;
      assert s[|low| + 1 + i] == x;
    }
    assert |multiset(l)| == |multiset(low)| && |multiset(r)| == |multiset(high)|;
  }

  lemma JoinedBag<D>(low: seq<Entry<D>>, e: Entry<D>, high: seq<Entry<D>>, dim: nat, l: Tree<D>, r: Tree<D>)
    requires Bag(l) == multiset(low) && Bag(r) == multiset(high)
    ensures Bag(Joined(e, dim, l, r)) == multiset(low + [e] + high)
  {
  }

  lemma JoinedBuilt<D>(e: Entry<D>, l: Tree<D>, r: Tree<D>, depth: nat)
    requires forall x | x in Elements(l) :: Coord(x.point, depth % 2) <= Coord(e.point, depth % 2)
    requires forall x | x in Elements(r) :: Coord(e.point, depth % 2) <= Coord(x.point, depth % 2)
    requires |Elements(l)| == (|Elements(l)| + 1 + |Elements(r)|) / 2
    requires Built(l, depth + 1) && Built(r, depth + 1)
    ensures Built(Joined(e, depth % 2, l, r), depth)
  {
    hide Coord, JoinedBounds, JoinedSize;
  }

  /** Building two halves around the median of a sorted run keeps the entries and builds the whole. */
  lemma BuildStep<D>(low: seq<Entry<D>>, e: Entry<D>, high: seq<Entry<D>>, l: Tree<D>, r: Tree<D>, depth: nat)
    requires SortedBy(low + [e] + high, depth % 2) && |low| == (|low| + 1 + |high|) / 2
    requires Built(l, depth + 1) && Bag(l) == BagOf(low)
    requires Built(r, depth + 1) && Bag(r) == BagOf(high)
    ensures Built(Joined(e, depth % 2, l, r), depth)
    ensures Bag(Joined(e, depth % 2, l, r)) == BagOf(low + [e] + high)
  {
    hide Built, Joined, SortedBy, Bag, Elements;
    BagOfElements(l);
    BagOfElements(r);
    MedianSeparates(low, e, high, depth % 2, Elements(l), Elements(r));
    JoinedBuilt(e, l, r, depth);
    JoinedBag(low, e, high, depth % 2, l, r);
  }

  /** Bulk loading orders and halves the points and records exact bounds and sizes. */
  lemma {:induction false} BuiltIsWellFormed<D>(t: Tree<D>, depth: nat)
    requires Built(t, depth)
    ensures WellFormed(t, depth) && Halved(t)
  {
    match t
    case Nil =>
    case Node(e, _, l, r, _, _) =>
      BuiltIsWellFormed(l, depth + 1);
      BuiltIsWellFormed(r, depth + 1);
      JoinIsAnnotated(e, l, r, depth);
  }

  // ---------- The documented strict order ----------

  /** Everything on the left lies strictly below the split, as the node's documentation has it. */
  ghost predicate StrictlyOrdered<D>(t: Tree<D>) {
    match t
    case Nil => true
    case Node(e, d, l, r, _, _) =>
      && (forall x | x in Elements(l) :: Coord(x.point, d) < Coord(e.point, d))
      && StrictlyOrdered(l) && StrictlyOrdered(r)
  }

  /** No two entries share a coordinate. */
  ghost predicate TieFree<D>(s: seq<Entry<D>>) {
    forall i, j | 0 <= i < j < |s| :: s[i].point.x != s[j].point.x && s[i].point.y != s[j].point.y
  }

  lemma TieFreeParts<D>(e: Entry<D>, a: seq<Entry<D>>, b: seq<Entry<D>>)
    requires TieFree([e] + a + b)
    ensures TieFree(a) && TieFree(b)
    ensures forall x | x in a :: x.point.x != e.point.x && x.point.y != e.point.y
    ensures forall x | x in b :: x.point.x != e.point.x && x.point.y != e.point.y
  {
    var s := [e] + a + b;
    forall i, j | 0 <= i < j < |a| ensures a[i].point.x != a[j].point.x && a[i].point.y != a[j].point.y {
      assert s[i + 1] == a[i] && s[j + 1] == a[j];
    }
    forall i, j | 0 <= i < j < |b| ensures b[i].point.x != b[j].point.x && b[i].point.y != b[j].point.y {
      assert s[|a| + 1 + i] == b[i] && s[|a| + 1 + j] == b[j];
    }
    forall x | x in a || x in b ensures x.point.x != e.point.x && x.point.y != e.point.y {
      assert x in a + b && s[1..] == a + b;
      var i :| 0 <= i < |a + b| && (a + b)[i] == x;
      assert s[0] == e && s[i + 1] == x;
    }
  }

  /** A build step is strict exactly when its sides are and the run's entry before the median lies below it. */
  lemma BuildStepStrictIff<D>(low: seq<Entry<D>>, e: Entry<D>, high: seq<Entry<D>>, l: Tree<D>, r: Tree<D>, depth: nat)
    requires SortedBy(low + [e] + high, depth % 2) && Bag(l) == BagOf(low)
    ensures StrictlyOrdered(Joined(e, depth % 2, l, r)) <==>
      && (low == [] || Coord(low[|low| - 1].point, depth % 2) < Coord(e.point, depth % 2))
      && StrictlyOrdered(l) && StrictlyOrdered(r)
  {
    hide Coord, Elements;
    BagOfElements(l);
    SameMultiset(Elements(l), low);
    var run := low + [e] + high;
    forall x | x in low ensures Coord(x.point, depth % 2) <= Coord(low[|low| - 1].point, depth % 2) {
      var i :| 0 <= i < |low| && low[i] == x;
      assert run[i] == x && run[|low| - 1] == low[|low| - 1];
    }
  }

  /** A bulk load of points without ties is strictly ordered, ... */
  lemma {:induction false} BuiltIsStrict<D>(t: Tree<D>, depth: nat)
    requires Built(t, depth) && TieFree(Elements(t))
    ensures StrictlyOrdered(t)
  {
    hide TieFree, Joined;
    match t
    case Nil =>
    case Node(e, _, l, r, _, _) =>
      TieFreeParts(e, Elements(l), Elements(r));
      BuiltIsStrict(l, depth + 1);
      BuiltIsStrict(r, depth + 1);
  }

  /** ... insertion keeps any tree strictly ordered, ... */
  lemma {:induction false} InsertKeepsStrict<D>(t: Tree<D>, e: Entry<D>, depth: nat)
    requires StrictlyOrdered(t)
    ensures StrictlyOrdered(InsertTree(t, e, depth))
  {
    hide Coord, ExpandPoint, PointMBR;
    match t
    case Nil =>
    case Node(x, d, l, r, _, _) =>
      if Coord(e.point, d) < Coord(x.point, d) {
        InsertKeepsStrict(l, e, depth + 1);
        InsertMembers(l, e, depth + 1);
      } else {
        InsertKeepsStrict(r, e, depth + 1);
      }
  }

  /** ... and a bulk load of two points with one x is not. */
  lemma BuiltWithTie<D>(a: D, b: D)
    ensures var low, e := Entry(Point(1.0, 5.0), 1, a), Entry(Point(1.0, 0.0), 2, b);
      var t := Joined(e, 0, Leaf(low, 1), Nil);
      && Elements(t) == [e, low] && Built(t, 0) && !StrictlyOrdered(t)
  {
    var low, e := Entry(Point(1.0, 5.0), 1, a), Entry(Point(1.0, 0.0), 2, b);
    var l := Leaf(low, 1);
    LeafBuilt(low, 1);
    assert low in Elements(l);
    JoinedBuilt(e, l, Nil, 0);
  }

  lemma LeafBuilt<D>(e: Entry<D>, depth: nat)
    ensures Elements(Leaf(e, depth)) == [e] && Built(Leaf(e, depth), depth)
  {
    assert Elements(Leaf(e, depth)) == [e] + [] + [];
  }

  lemma {:induction false} Pow2Monotonic(m: nat, n: nat)
    requires m <= n
    ensures Pow2(m) <= Pow2(n)
    decreases n
  {
    if m < n { Pow2Monotonic(m, n - 1); }
  }

  function Height<D>(t: Tree<D>): nat {
    match t
    case Nil => 0
    case Node(_, _, l, r, _, _) => 1 + if Height(l) > Height(r) then Height(l) else Height(r)
  }

  /** A way down from the root, right or left at each step, that ends at a node. */
  predicate Reaches<D>(t: Tree<D>, way: seq<bool>) {
    t.Node? && (way == [] || Reaches(if way[0] then t.right else t.left, way[1..]))
  }

  /** The height is the number of nodes on the longest way down. */
  lemma {:induction false} HeightIsLongestWay<D>(t: Tree<D>) returns (way: seq<bool>)
    ensures forall w | Reaches(t, w) :: |w| < Height(t)
    ensures t.Node? ==> Reaches(t, way) && |way| == Height(t) - 1
  {
    way := [];
    if t.Node? {
      var l := HeightIsLongestWay(t.left);
      var r := HeightIsLongestWay(t.right);
      if t.left.Node? && (t.right.Nil? || Height(t.left) > Height(t.right)) {
        way := [false] + l;
      } else if t.right.Node? {
        way := [true] + r;
      }
      assert way != [] ==> way[1..] == if way[0] then r else l;
      forall w | Reaches(t, w) ensures |w| < Height(t) {
        if w != [] { assert Reaches(if w[0] then t.right else t.left, w[1..]); }
      }
    }
  }

  /** The least k with n <= 2^k: ceil(log2(n)). */
  function CeilLog2(n: nat): (k: nat)
    requires n > 0
    ensures n <= Pow2(k)
    ensures k > 0 ==> Pow2(k - 1) < n
  {
    if n == 1 then 0 else 1 + CeilLog2((n + 1) / 2)
  }

  /** A halved tree of n entries has the least height any binary tree of n nodes can have. */
  lemma {:induction false} HalvedHeight<D>(t: Tree<D>)
    requires Halved(t) && t.Node?
    ensures Height(t) > 0 && Pow2(Height(t) - 1) <= |Elements(t)| < Pow2(Height(t))
  {
    var l, r := t.left, t.right;
    if l.Node? {
      HalvedHeight(l);
      if r.Node? {
        HalvedHeight(r);
        if Height(r) > Height(l) { Pow2Monotonic(Height(l), Height(r) - 1); }
      }
    }
  }

  function OptimalHeight(n: nat): nat { CeilLog2(n + 1) }

  lemma CeilLog2Unique(n: nat, h: nat)
    requires n > 0 && h > 0
    requires Pow2(h - 1) <= n < Pow2(h)
    ensures OptimalHeight(n) == h
  {
    var k := OptimalHeight(n);
    if k < h { Pow2Monotonic(k, h - 1); }
    if k > h { Pow2Monotonic(h, k - 1); }
  }

  lemma EmptyHeight<D>()
    ensures Height<D>(Nil) == 0 == OptimalHeight(0)
  {
  }

  lemma HalvedHeightIsOptimal<D>(t: Tree<D>)
    requires Halved(t)
    ensures Height(t) == OptimalHeight(|Elements(t)|)
  {
    hide Pow2, Height, CeilLog2;
    if t.Node? {
      HalvedHeight(t);
      CeilLog2Unique(|Elements(t)|, Height(t));
    } else {
      EmptyHeight<D>();
    }
  }

  // ---------- Nearest neighbour ----------

  /** The running best of a nearest-neighbour search. */
  datatype Best<D> = Best(entry: Entry<D>, distSq: real)

  function Visit<D>(s: Best<D>, e: Entry<D>, q: Point): Best<D> {
    if DistSq(q, e.point) < s.distSq then Best(e, DistSq(q, e.point)) else s
  }

  /** The squared distance from q to the splitting line through p. */
  function LineDistSq(q: Point, p: Point, d: nat): real {
    (Coord(q, d) - Coord(p, d)) * (Coord(q, d) - Coord(p, d))
  }

  /** The branch-and-bound search: the far side is skipped when the splitting line is too far away. */
  function NearestFrom<D>(t: Tree<D>, q: Point, s: Best<D>): Best<D> {
    match t
    case Nil => s
    case Node(e, d, l, r, _, _) =>
      var below := Coord(q, d) < Coord(e.point, d);
      var s1 := NearestFrom(if below then l else r, q, Visit(s, e, q));
      if LineDistSq(q, e.point, d) < s1.distSq then NearestFrom(if below then r else l, q, s1) else s1
  }

  lemma SquareMonotonic(a: real, b: real)
    requires 0.0 <= a <= b
    ensures a * a <= b * b
  {
    assert b * b - a * a == (b - a) * (b + a);
    assert (b - a) * (b + a) >= 0.0;
  }

  /** A point across the splitting line through m is at least as far away as the line. */
  lemma FarSide(q: Point, p: Point, d: nat, m: Point)
    requires if Coord(q, d) < Coord(m, d) then Coord(m, d) <= Coord(p, d) else Coord(p, d) <= Coord(m, d)
    ensures LineDistSq(q, m, d) <= DistSq(q, p)
  {
    var c, g := Coord(q, d) - Coord(m, d), Coord(q, d) - Coord(p, d);
    assert c * c <= g * g by {
      if c >= 0.0 { SquareMonotonic(c, g); } else { SquareMonotonic(-c, -g); }
    }
    var dx, dy := p.x - q.x, p.y - q.y;
    assert DistSq(q, p) == dx * dx + dy * dy && dx * dx >= 0.0 && dy * dy >= 0.0;
    assert g * g == if d == 0 then dx * dx else dy * dy;
  }

  /** s is no worse than every entry of xs. */
  ghost predicate Beats<D>(s: Best<D>, q: Point, xs: seq<Entry<D>>) {
    forall x | x in xs :: s.distSq <= DistSq(q, x.point)
  }

  /** s is start, or an entry of xs strictly closer than start. */
  ghost predicate ImprovesOn<D>(s: Best<D>, start: Best<D>, q: Point, xs: seq<Entry<D>>) {
    s == start || (s.entry in xs && s.distSq == DistSq(q, s.entry.point) < start.distSq)
  }

  lemma FarSideBeaten<D>(s: Best<D>, q: Point, d: nat, m: Point, xs: seq<Entry<D>>)
    requires LineDistSq(q, m, d) >= s.distSq
    requires forall x | x in xs ::
      if Coord(q, d) < Coord(m, d) then Coord(m, d) <= Coord(x.point, d) else Coord(x.point, d) <= Coord(m, d)
    ensures Beats(s, q, xs)
  {
    hide LineDistSq, DistSq;
    forall x | x in xs ensures s.distSq <= DistSq(q, x.point) { FarSide(q, x.point, d, m); }
  }

  /** Pruning loses nothing: the search ends with the least distance over all entries of the tree. */
  lemma {:induction false} NearestIsMinimum<D>(t: Tree<D>, q: Point, s: Best<D>)
    requires Ordered(t)
    ensures ImprovesOn(NearestFrom(t, q, s), s, q, Elements(t))
    ensures Beats(NearestFrom(t, q, s), q, Elements(t))
  {
    hide LineDistSq, DistSq;
    match t
    case Nil =>
    case Node(e, d, l, r, _, _) =>
      var below := Coord(q, d) < Coord(e.point, d);
      var near, far := if below then l else r, if below then r else l;
      var s1 := NearestFrom(near, q, Visit(s, e, q));
      NearestIsMinimum(near, q, Visit(s, e, q));
      if LineDistSq(q, e.point, d) < s1.distSq {
        NearestIsMinimum(far, q, s1);
      } else {
        FarSideBeaten(s1, q, d, e.point, Elements(far));
      }
  }

  /** e is stored, and no stored entry is closer to q, unless every distance reaches DBL_MAX. */
  ghost predicate IsNearest<D>(e: Entry<D>, s: seq<Entry<D>>, q: Point) {
    && e in s
    && ((forall x | x in s :: DistSq(q, e.point) <= DistSq(q, x.point))
        || (forall x | x in s :: DBL_MAX <= DistSq(q, x.point)))
  }

  function NearestEntry<D>(t: Tree<D>, q: Point): Option<Entry<D>> {
    if t.Nil? then None else Some(NearestFrom(t, q, Best(t.entry, DBL_MAX)).entry)
  }

  /** The search finds a nearest entry whenever the tree holds one. */
  lemma NearestEntryIsNearest<D>(t: Tree<D>, q: Point)
    requires Ordered(t)
    ensures match NearestEntry(t, q) case None => Elements(t) == [] case Some(e) => IsNearest(e, Elements(t), q)
  {
    if t.Node? {
      hide DistSq, LineDistSq, Ordered;
      NearestIsMinimum(t, q, Best(t.entry, DBL_MAX));
    }
  }

  // ---------- Range and radius queries ----------

  function InRange<D>(range: MBR): Entry<D> -> bool {
    (e: Entry<D>) => ContainsPoint(range, e.point)
  }

  function InRadius<D>(q: Point, rSq: real): Entry<D> -> bool {
    (e: Entry<D>) => DistSq(q, e.point) <= rSq
  }

  /** What the scans keep, in coordinates: the border counts as inside. */
  lemma ScansMean<D>(e: Entry<D>, range: MBR, q: Point, rSq: real)
    ensures InRange<D>(range)(e)
       <==> range.minX <= e.point.x <= range.maxX && range.minY <= e.point.y <= range.maxY
    ensures InRadius<D>(q, rSq)(e)
       <==> (e.point.x - q.x) * (e.point.x - q.x) + (e.point.y - q.y) * (e.point.y - q.y) <= rSq
  {
  }

  function RangeTree<D>(t: Tree<D>, range: MBR): seq<Entry<D>> {
    match t
    case Nil => []
    case Node(e, _, l, r, b, _) =>
      if !Intersects(b, range) then []
      else (if ContainsPoint(range, e.point) then [e] else []) + RangeTree(l, range) + RangeTree(r, range)
  }

  /** The pruned range query is the scan of all entries, in the same order and multiplicity. */
  lemma {:induction false} RangeIsScan<D>(t: Tree<D>, range: MBR, depth: nat)
    requires Annotated(t, depth)
    ensures RangeTree(t, range) == Filter(Elements(t), InRange(range))
  {
    match t
    case Nil =>
    case Node(e, _, l, r, b, _) =>
      if Intersects(b, range) {
        RangeIsScan(l, range, depth + 1);
        RangeIsScan(r, range, depth + 1);
        FilterConcat([e] + Elements(l), Elements(r), InRange(range));
        FilterConcat([e], Elements(l), InRange(range));
      } else {
        forall x | x in Elements(t) ensures !InRange(range)(x) {
          if ContainsPoint(range, x.point) { IntersectsMeansSharedPoint(b, range); }
        }
        FilterNone(Elements(t), InRange(range));
      }
  }

  /** Querying the bounds of the whole tree returns everything. */
  lemma WholeRange<D>(t: Tree<D>, b: MBR)
    requires WellFormed(t, 0) && Encloses(b, Elements(t)) && AllFinite(Elements(t))
    ensures RangeTree(t, b) == Elements(t)
  {
    hide Annotated, Ordered, RangeTree;
    RangeIsScan(t, b, 0);
    FilterAll(Elements(t), InRange(b));
  }

  function RadiusBox(q: Point, radius: real): MBR {
    MBR(q.x - radius, q.y - radius, q.x + radius, q.y + radius)
  }

  lemma BoxAroundDisc(q: Point, p: Point, radius: real)
    requires radius >= 0.0 && DistSq(q, p) <= radius * radius
    ensures ContainsPoint(RadiusBox(q, radius), p)
  {
    var dx, dy := p.x - q.x, p.y - q.y;
    assert DistSq(q, p) == dx * dx + dy * dy;
    SquareBound(dx, dy, radius);
    SquareBound(dy, dx, radius);
  }

  lemma SquareBound(a: real, b: real, r: real)
    requires r >= 0.0 && a * a + b * b <= r * r
    ensures -r <= a <= r
  {
    var aa, bb, rr := a * a, b * b, r * r;
    assert bb >= 0.0;
    if a > r {
      assert aa - rr == (a - r) * (a + r);
      PositiveProduct(a - r, a + r);
    } else if a < -r {
      assert aa - rr == (-a - r) * (-a + r);
      PositiveProduct(-a - r, -a + r);
    }
  }

  lemma PositiveProduct(a: real, b: real)
    requires a > 0.0 && b > 0.0
    ensures a * b > 0.0
  {
  }

  /** Box query then distance filter: the disc scan for a radius >= 0, and nothing for a negative one. */
  lemma RadiusIsScan<D>(s: seq<Entry<D>>, q: Point, radius: real)
    ensures Filter(Filter(s, InRange(RadiusBox(q, radius))), InRadius(q, radius * radius))
         == if radius >= 0.0 then Filter(s, InRadius(q, radius * radius)) else []
  {
    if radius >= 0.0 {
      forall x | x in s && InRadius(q, radius * radius)(x) ensures InRange(RadiusBox(q, radius))(x) {
        BoxAroundDisc(q, x.point, radius);
      }
      FilterTwice(s, InRange(RadiusBox(q, radius)), InRadius(q, radius * radius));
    } else {
      FilterNone(s, InRange(RadiusBox(q, radius)));
    }
  }

  // ---------- k nearest neighbours ----------

  /** out lists min(k, |all|) entries of all by nondecreasing distance, and none left out is closer. */
  ghost predicate KNearest<D>(out: seq<Entry<D>>, all: seq<Entry<D>>, q: Point, k: nat) {
    && |out| == (if k < |all| then k else |all|)
    && (forall i, j | 0 <= i < j < |out| :: DistSq(q, out[i].point) <= DistSq(q, out[j].point))
    && multiset(out) <= multiset(all)
    && (forall x, y | x in out && y in multiset(all) - multiset(out) :: DistSq(q, x.point) <= DistSq(q, y.point))
  }

  /** The first i entries of perm are in order and no farther than any later one. */
  ghost predicate FirstSmallest<D>(perm: seq<Entry<D>>, i: nat, q: Point) {
    forall x, y | 0 <= x < i && x < y < |perm| :: DistSq(q, perm[x].point) <= DistSq(q, perm[y].point)
  }

  lemma SelectedBeforeRest<D>(out: seq<Entry<D>>, rest: seq<Entry<D>>, q: Point)
    requires FirstSmallest(out + rest, |out|, q)
    ensures forall x, y | x in out && y in rest :: DistSq(q, x.point) <= DistSq(q, y.point)
    ensures FirstSmallest(out, |out|, q)
  {
    hide DistSq;
    var perm := out + rest;
    forall x, y | x in out && y in rest ensures DistSq(q, x.point) <= DistSq(q, y.point) {
      var i :| 0 <= i < |out| && out[i] == x;
      var j :| 0 <= j < |rest| && rest[j] == y;
      assert perm[i] == x && perm[|out| + j] == y;
    }
    forall x, y | 0 <= x < y < |out| ensures DistSq(q, out[x].point) <= DistSq(q, out[y].point) {
      assert perm[x] == out[x] && perm[y] == out[y];
    }
  }

  lemma AnswerFromSplit<D>(out: seq<Entry<D>>, rest: seq<Entry<D>>, all: seq<Entry<D>>, q: Point, k: nat)
    requires multiset(out + rest) == multiset(all)
    requires |out| == if k < |all| then k else |all|
    requires FirstSmallest(out, |out|, q)
    requires forall x, y | x in out && y in rest :: DistSq(q, x.point) <= DistSq(q, y.point)
    ensures KNearest(out, all, q, k)
  {
    hide DistSq;
    assert multiset(all) - multiset(out) == multiset(rest);
  }

  /** A prefix selected this way is an answer. */
  lemma KNearestFromPrefix<D>(perm: seq<Entry<D>>, all: seq<Entry<D>>, q: Point, k: nat, m: nat)
    requires multiset(perm) == multiset(all)
    requires m == (if k < |all| then k else |all|) <= |perm|
    requires FirstSmallest(perm, m, q)
    ensures KNearest(perm[..m], all, q, k)
  {
    hide DistSq, FirstSmallest;
    var out, rest := perm[..m], perm[m..];
    assert perm == out + rest;
    SelectedBeforeRest(out, rest, q);
    AnswerFromSplit(out, rest, all, q, k);
  }

  /** Entries closer to q than c. */
  function Closer<D>(q: Point, c: real): Entry<D> -> bool {
    (e: Entry<D>) => DistSq(q, e.point) < c
  }

  lemma {:induction false} FilterSubmultiset<D>(s: seq<Entry<D>>, t: seq<Entry<D>>, keep: Entry<D> -> bool)
    requires forall x | x in s && keep(x) :: multiset(s)[x] <= multiset(t)[x]
    ensures |Filter(s, keep)| <= |Filter(t, keep)|
  {
    var fs, ft := Filter(s, keep), Filter(t, keep);
    forall x | x in multiset(fs) ensures multiset(fs)[x] <= multiset(ft)[x] {
      FilterCount(s, keep, x);
      FilterCount(t, keep, x);
    }
    assert multiset(fs) <= multiset(ft);
    assert multiset(ft) == multiset(fs) + (multiset(ft) - multiset(fs));
    assert |multiset(fs)| == |fs| && |multiset(ft)| == |ft|;
  }

  lemma {:induction false} FilterAll<D>(s: seq<Entry<D>>, keep: Entry<D> -> bool)
    requires forall x | x in s :: keep(x)
    ensures Filter(s, keep) == s
  {
    if s != [] { FilterAll(s[1..], keep); }
  }

  /** The predicate pins the answer down: any two answers list the same distances. */
  lemma KNearestDistancesUnique<D>(a: seq<Entry<D>>, b: seq<Entry<D>>, all: seq<Entry<D>>, q: Point, k: nat, i: nat)
    requires KNearest(a, all, q, k) && KNearest(b, all, q, k) && i < |a|
    ensures DistSq(q, a[i].point) == DistSq(q, b[i].point)
  {
    hide DistSq;
    if DistSq(q, a[i].point) < DistSq(q, b[i].point) {
      KNearestNoCloser(a, b, all, q, k, i);
    } else if DistSq(q, b[i].point) < DistSq(q, a[i].point) {
      KNearestNoCloser(b, a, all, q, k, i);
    }
  }

  /** a lists at least i + 1 entries closer than c. */
  lemma CloserUpTo<D>(a: seq<Entry<D>>, q: Point, c: real, i: nat)
    requires i < |a| && forall j | 0 <= j <= i :: DistSq(q, a[j].point) < c
    ensures |Filter(a, Closer(q, c))| >= i + 1
  {
    hide DistSq, Filter;
    FilterConcat(a[..i + 1], a[i + 1..], Closer(q, c));
    assert a == a[..i + 1] + a[i + 1..];
    FilterAll(a[..i + 1], Closer(q, c));
  }

  /** b lists at most i entries closer than c. */
  lemma CloserOnlyBefore<D>(b: seq<Entry<D>>, q: Point, c: real, i: nat)
    requires i <= |b| && forall j | i <= j < |b| :: DistSq(q, b[j].point) >= c
    ensures |Filter(b, Closer(q, c))| <= i
  {
    hide DistSq, Filter;
    var before, after := b[..i], b[i..];
    forall x | x in after ensures !Closer<D>(q, c)(x) {
      var j :| 0 <= j < |after| && after[j] == x;
      assert b[i + j] == x;
    }
    FilterNone(after, Closer(q, c));
    FilterConcat(before, after, Closer(q, c));
    assert b == before + after;
    assert |Filter(before, Closer(q, c))| <= |before| == i;
  }

  /** b leaves out no entry closer than its last. */
  lemma CloserAllListed<D>(b: seq<Entry<D>>, all: seq<Entry<D>>, q: Point, k: nat, i: nat, c: real)
    requires KNearest(b, all, q, k) && i < |b| && c == DistSq(q, b[i].point)
    ensures |Filter(all, Closer(q, c))| <= |Filter(b, Closer(q, c))|
  {
    hide DistSq, Filter;
    assert b[i] in b;
    assert forall x: Entry<D> | x in multiset(all) - multiset(b) :: !Closer<D>(q, c)(x);
    forall x | x in all && Closer<D>(q, c)(x) ensures multiset(all)[x] <= multiset(b)[x] {
      assert x !in multiset(all) - multiset(b);
    }
    FilterSubmultiset(all, b, Closer(q, c));
  }

  lemma KNearestCount<D>(out: seq<Entry<D>>, all: seq<Entry<D>>, q: Point, k: nat)
    requires KNearest(out, all, q, k)
    ensures |out| == (if k < |all| then k else |all|) && multiset(out) <= multiset(all)
    ensures forall i, j | 0 <= i < j < |out| :: DistSq(q, out[i].point) <= DistSq(q, out[j].point)
  {
    hide DistSq;
  }

  lemma KNearestNoCloser<D>(a: seq<Entry<D>>, b: seq<Entry<D>>, all: seq<Entry<D>>, q: Point, k: nat, i: nat)
    requires KNearest(a, all, q, k) && KNearest(b, all, q, k) && i < |a|
    ensures DistSq(q, a[i].point) >= DistSq(q, b[i].point)
  {
    hide DistSq, Filter, Closer, KNearest;
    KNearestCount(a, all, q, k);
    KNearestCount(b, all, q, k);
    var c := DistSq(q, b[i].point);
    if DistSq(q, a[i].point) < c {
      CloserUpTo(a, q, c, i);
      FilterSubmultiset(a, all, Closer(q, c));
      CloserAllListed(b, all, q, k, i, c);
      CloserOnlyBefore(b, q, c, i);
      assert false;
    }
  }

  // ---------- Partition into blocks ----------

  /** The subtrees that become blocks. */
  function BlockTrees<D>(t: Tree<D>, max: nat): seq<Tree<D>> {
    match t
    case Nil => []
    case Node(_, _, l, r, _, n) =>
      if n <= max || (l.Nil? && r.Nil?) then [t] else BlockTrees(l, max) + BlockTrees(r, max)
  }

  /** The entries of the nodes the partition descends through; no block accounts for them. */
  function PassedThrough<D>(t: Tree<D>, max: nat): seq<Entry<D>> {
    match t
    case Nil => []
    case Node(e, _, l, r, _, n) =>
      if n <= max || (l.Nil? && r.Nil?) then [] else [e] + PassedThrough(l, max) + PassedThrough(r, max)
  }

  function AllElements<D>(ts: seq<Tree<D>>): seq<Entry<D>> {
    if ts == [] then [] else Elements(ts[0]) + AllElements(ts[1..])
  }

  lemma {:induction false} AllElementsConcat<D>(a: seq<Tree<D>>, b: seq<Tree<D>>)
    ensures AllElements(a + b) == AllElements(a) + AllElements(b)
  {
    if a == [] {
      assert a + b == b;
    } else {
      assert (a + b)[1..] == a[1..] + b;
      AllElementsConcat(a[1..], b);
    }
  }

  /** Blocks and passed-through entries together account for every stored entry exactly once. */
  lemma {:induction false} PartitionAccounts<D>(t: Tree<D>, max: nat)
    ensures multiset(AllElements(BlockTrees(t, max))) + multiset(PassedThrough(t, max)) == multiset(Elements(t))
  {
    match t
    case Nil =>
    case Node(e, _, l, r, _, n) =>
      if n <= max || (l.Nil? && r.Nil?) {
        assert AllElements([t]) == Elements(t) + AllElements([]);
      } else {
        PartitionAccounts(l, max);
        PartitionAccounts(r, max);
        AllElementsConcat(BlockTrees(l, max), BlockTrees(r, max));
      }
  }

  /** Each block is the tight rectangle of 1 to max(1, max) of the stored entries. */
  lemma {:induction false} BlockIsTight<D>(t: Tree<D>, max: nat, depth: nat, i: nat)
    requires Annotated(t, depth) && i < |BlockTrees(t, max)|
    ensures var b := BlockTrees(t, max)[i];
      && b.Node?
      && Tight(b.bounds, Elements(b))
      && 1 <= |Elements(b)| <= (if max > 1 then max else 1)
      && forall x | x in Elements(b) :: x in Elements(t)
  {
    match t
    case Node(e, _, l, r, _, n) =>
      if n <= max || (l.Nil? && r.Nil?) {
      } else if i < |BlockTrees(l, max)| {
        BlockIsTight(l, max, depth + 1, i);
      } else {
        BlockIsTight(r, max, depth + 1, i - |BlockTrees(l, max)|);
      }
  }

  ghost predicate Interior(b: MBR, p: Point) {
    b.minX < p.x < b.maxX && b.minY < p.y < b.maxY
  }

  /** Blocks left and right of a splitting line have disjoint interiors. */
  lemma SplitSeparates<D>(t: Tree<D>, a: MBR, xs: seq<Entry<D>>, b: MBR, ys: seq<Entry<D>>, p: Point)
    requires Ordered(t) && t.Node?
    requires Tight(a, xs) && forall x | x in xs :: x in Elements(t.left)
    requires Tight(b, ys) && forall y | y in ys :: y in Elements(t.right)
    ensures !(Interior(a, p) && Interior(b, p))
  {
    var split := Coord(t.entry.point, t.dim);
    if t.dim == 0 {
      assert a.maxX <= split <= b.minX;
    } else {
      assert a.maxY <= split <= b.minY;
    }
  }

  /** No point lies in the interior of two different blocks. */
  lemma {:induction false} BlocksDisjoint<D>(t: Tree<D>, max: nat, depth: nat, i: nat, j: nat, p: Point)
    requires Ordered(t) && Annotated(t, depth) && i < j < |BlockTrees(t, max)|
    ensures var bs := BlockTrees(t, max);
      bs[i].Node? && bs[j].Node? && !(Interior(bs[i].bounds, p) && Interior(bs[j].bounds, p))
  {
    hide Tight, Interior, Coord;
    var l, r := t.left, t.right;
    var nl := |BlockTrees(l, max)|;
    if j < nl {
      BlocksDisjoint(l, max, depth + 1, i, j, p);
    } else if nl <= i {
      BlocksDisjoint(r, max, depth + 1, i - nl, j - nl, p);
    } else {
      BlockIsTight(l, max, depth + 1, i);
      BlockIsTight(r, max, depth + 1, j - nl);
      var a, b := BlockTrees(l, max)[i], BlockTrees(r, max)[j - nl];
      SplitSeparates(t, a.bounds, Elements(a), b.bounds, Elements(b), p);
    }
  }

  /** The subtrees that become blocks hold every stored entry exactly when the whole tree is a single block or empty. */
  lemma PartitionComplete<D>(t: Tree<D>, max: nat)
    ensures multiset(AllElements(BlockTrees(t, max))) == multiset(Elements(t))
       <==> t.Nil? || t.size <= max || (t.left.Nil? && t.right.Nil?)
  {
    PartitionAccounts(t, max);
    if t.Node? && !(t.size <= max || (t.left.Nil? && t.right.Nil?)) {
      assert t.entry in multiset(PassedThrough(t, max));
    }
  }

  lemma LeafWellFormed<D>(e: Entry<D>, depth: nat)
    ensures WellFormed(Leaf(e, depth), depth) && Elements(Leaf(e, depth)) == [e] && Built(Leaf(e, depth), depth)
  {
    LeafBuilt(e, depth);
    BuiltIsWellFormed(Leaf(e, depth), depth);
  }

  /** Some block's rectangle contains p. */
  ghost predicate Covered<D>(t: Tree<D>, max: nat, p: Point) {
    exists b | b in BlockTrees(t, max) :: b.Node? && ContainsPoint(b.bounds, p)
  }

  /** No entry below the root lies on the root's splitting line. */
  ghost predicate LineFree<D>(t: Tree<D>)
    requires t.Node?
  {
    && (forall x | x in Elements(t.left) :: Coord(x.point, t.dim) != Coord(t.entry.point, t.dim))
    && (forall x | x in Elements(t.right) :: Coord(x.point, t.dim) != Coord(t.entry.point, t.dim))
  }

  lemma TieFreeIsLineFree<D>(t: Tree<D>)
    requires t.Node? && TieFree(Elements(t))
    ensures LineFree(t)
  {
    hide TieFree;
    TieFreeParts(t.entry, Elements(t.left), Elements(t.right));
  }

  /** A tree that is a single block is covered, ties or not. */
  lemma SingleBlockCovers<D>(t: Tree<D>, max: nat, depth: nat, e: Entry<D>)
    requires Annotated(t, depth) && t.Node? && (t.size <= max || (t.left.Nil? && t.right.Nil?))
    requires e in Elements(t)
    ensures Covered(t, max, e.point)
  {
    BlockIsTight(t, max, depth, 0);
    assert t in BlockTrees(t, max);
    TightContains(t.bounds, Elements(t), e);
  }

  lemma TightContains<D>(b: MBR, s: seq<Entry<D>>, e: Entry<D>)
    requires Tight(b, s) && e in s
    ensures ContainsPoint(b, e.point)
  {
  }

  /** A block below the root stays off a splitting line no entry lies on. */
  lemma BlockOffLine<D>(t: Tree<D>, max: nat, depth: nat, b: Tree<D>)
    requires WellFormed(t, depth) && t.Node? && LineFree(t)
    requires b in BlockTrees(t.left, max) || b in BlockTrees(t.right, max)
    ensures b.Node? && !ContainsPoint(b.bounds, t.entry.point)
  {
    var side := if b in BlockTrees(t.left, max) then t.left else t.right;
    var i :| 0 <= i < |BlockTrees(side, max)| && BlockTrees(side, max)[i] == b;
    BlockIsTight(side, max, depth + 1, i);
    if ContainsPoint(b.bounds, t.entry.point) { TightReaches(b.bounds, Elements(b), t.dim); }
  }

  /** A tight rectangle has an entry on each of its edges. */
  lemma TightReaches<D>(b: MBR, s: seq<Entry<D>>, dim: nat)
    requires Tight(b, s) && s != []
    ensures exists x | x in s :: Coord(x.point, dim) == if dim == 0 then b.minX else b.minY
    ensures exists x | x in s :: Coord(x.point, dim) == if dim == 0 then b.maxX else b.maxY
  {
  }

  /** When no entry below the root lies on its splitting line, the rectangles of the blocks contain every
      stored point exactly when the whole tree is a single block. */
  lemma BlocksCoverIff<D>(t: Tree<D>, max: nat, depth: nat)
    requires WellFormed(t, depth) && t.Node? && LineFree(t)
    ensures (forall e | e in Elements(t) :: Covered(t, max, e.point))
       <==> t.size <= max || (t.left.Nil? && t.right.Nil?)
  {
    if t.size <= max || (t.left.Nil? && t.right.Nil?) {
      forall e | e in Elements(t) ensures Covered(t, max, e.point) { SingleBlockCovers(t, max, depth, e); }
    } else {
      assert t.entry in Elements(t);
      forall b | b in BlockTrees(t, max) ensures b.Node? && !ContainsPoint(b.bounds, t.entry.point) {
        BlockOffLine(t, max, depth, b);
      }
    }
  }

  /** With ties a tree of several blocks can be covered: the root lies on the edge of a block. */
  lemma TiedBlocksCover<D>(d: D)
    ensures var l := Joined(Entry(Point(0.0, 2.0), 2, d), 1, Leaf(Entry(Point(0.0, 0.0), 1, d), 0), Nil);
      var r := Leaf(Entry(Point(0.0, 3.0), 3, d), 1);
      var t := Joined(Entry(Point(0.0, 1.0), 4, d), 0, l, r);
      && Built(t, 0) && t.size == 4 && BlockTrees(t, 2) == [l, r]
      && forall e | e in Elements(t) :: Covered(t, 2, e.point)
  {
    hide Built;
    BuiltNil<D>(2);
    var low := Leaf(Entry(Point(0.0, 0.0), 1, d), 0);
    var l := Joined(Entry(Point(0.0, 2.0), 2, d), 1, low, Nil);
    var r := Leaf(Entry(Point(0.0, 3.0), 3, d), 1);
    var t := Joined(Entry(Point(0.0, 1.0), 4, d), 0, l, r);
    LeafBuilt(low.entry, 2);
    LeafBuilt(r.entry, 1);
    JoinedBuilt(l.entry, low, Nil, 1);
    JoinedBuilt(t.entry, l, r, 0);
    assert BlockTrees(t, 2) == [l] + [r];
    assert l in BlockTrees(t, 2) && r in BlockTrees(t, 2);
    assert l.bounds == MBR(0.0, 0.0, 0.0, 2.0) && r.bounds == MBR(0.0, 3.0, 0.0, 3.0);
  }

  /** Three points on a diagonal, one point a block: the middle one ends up in no block. */
  lemma PartitionMissesAPoint<D>(d: D)
    ensures var l, r := Leaf(Entry(Point(0.0, 0.0), 1, d), 1), Leaf(Entry(Point(2.0, 2.0), 3, d), 1);
      var m := Entry(Point(1.0, 1.0), 2, d);
      var t := Node(m, 0, l, r, MBR(0.0, 0.0, 2.0, 2.0), 3);
      && WellFormed(t, 0) && Built(t, 0)
      && forall b | b in BlockTrees(t, 1) :: b.Node? && !ContainsPoint(b.bounds, m.point)
  {
    hide WellFormed, Built, Halved, Elements;
    var l, r := Leaf(Entry(Point(0.0, 0.0), 1, d), 1), Leaf(Entry(Point(2.0, 2.0), 3, d), 1);
    var m := Entry(Point(1.0, 1.0), 2, d);
    LeafWellFormed(l.entry, 1);
    LeafWellFormed(r.entry, 1);
    JoinedBuilt(m, l, r, 0);
    BuiltIsWellFormed(Joined(m, 0, l, r), 0);
    assert BlockTrees(l, 1) == [l] && BlockTrees(r, 1) == [r];
  }
}
