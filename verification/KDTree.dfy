// The KD-tree of src/kdtree.c: heap nodes updated in place, proved against the values of KDSpec.
module KDTrees {
  import opened Geometry
  import opened Seqs
  import opened KDSpec

  ghost function ModelOf<D>(n: KDNode?<D>): Tree<D>
    reads n
  {
    if n == null then Nil else n.model
  }

  ghost function ReprOf<D>(n: KDNode?<D>): set<KDNode<D>>
    reads n
  {
    if n == null then {} else n.repr
  }

  ghost predicate ValidOrNull<D>(n: KDNode?<D>)
    reads n, ReprOf(n)
  {
    n == null || n.Valid()
  }

  /** What a valid node says about its children, without unfolding it. */
  lemma Children<D>(n: KDNode<D>)
    requires n.Valid()
    ensures ValidOrNull(n.left) && ValidOrNull(n.right)
    ensures {n} + ReprOf(n.left) + ReprOf(n.right) <= n.repr
    ensures n !in ReprOf(n.left) && n !in ReprOf(n.right) && ReprOf(n.left) !! ReprOf(n.right)
    ensures n.model == Node(Entry(n.point, n.objectId, n.data), n.splitDim, ModelOf(n.left), ModelOf(n.right),
                            n.bounds, n.subtreeSize)
  {
  }

  class KDNode<D> {
    var point: Point
    var objectId: nat
    var data: D
    var splitDim: nat
    var left: KDNode?<D>
    var right: KDNode?<D>
    var bounds: MBR
    var subtreeSize: nat
    ghost var model: Tree<D>          // the value of this subtree
    ghost var repr: set<KDNode<D>>    // its nodes

    ghost predicate Valid()
      reads this, repr
      decreases repr
      ensures Valid() ==> this in repr && model.Node?
    {
      && this in repr
      && (left != null ==> left in repr && left.repr <= repr && this !in left.repr && left.Valid())
      && (right != null ==> right in repr && right.repr <= repr && this !in right.repr && right.Valid())
      && ReprOf(left) !! ReprOf(right)
      && model == Node(Entry(point, objectId, data), splitDim, ModelOf(left), ModelOf(right), bounds, subtreeSize)
    }

    constructor (p: Point, id: nat, d: D, dim: nat)
      ensures Valid() && repr == {this} && left == null && right == null
      ensures model == Node(Entry(p, id, d), dim, Nil, Nil, PointMBR(p), 1)
    {
      point, objectId, data, splitDim := p, id, d, dim;
      left, right := null, null;
      bounds, subtreeSize := PointMBR(p), 1;
      model := Node(Entry(p, id, d), dim, Nil, Nil, PointMBR(p), 1);
      repr := {this};
    }

    /** Brings the ghost value back in line after the fields of this node changed. */
    ghost method Refresh()
      requires ValidOrNull(left) && ValidOrNull(right)
      requires this !in ReprOf(left) && this !in ReprOf(right) && ReprOf(left) !! ReprOf(right)
      modifies this`model, this`repr
      ensures Valid() && repr == {this} + ReprOf(left) + ReprOf(right)
      ensures model == Node(Entry(point, objectId, data), splitDim, ModelOf(left), ModelOf(right), bounds, subtreeSize)
    {
      model := Node(Entry(point, objectId, data), splitDim, ModelOf(left), ModelOf(right), bounds, subtreeSize);
      repr := {this} + ReprOf(left) + ReprOf(right);
    }

    /** Takes one more point at p into bounds and size, below a child that already has it. */
    method Grow(p: Point)
      requires ValidOrNull(left) && ValidOrNull(right)
      requires this !in ReprOf(left) && this !in ReprOf(right) && ReprOf(left) !! ReprOf(right)
      modifies this`bounds, this`subtreeSize, this`model, this`repr
      ensures Valid() && repr == {this} + ReprOf(left) + ReprOf(right)
      ensures model == Node(Entry(point, objectId, data), splitDim, ModelOf(left), ModelOf(right),
                            ExpandPoint(old(bounds), p), old(subtreeSize) + 1)
    {
      hide ExpandPoint;
      bounds := ExpandPoint(bounds, p);
      subtreeSize := subtreeSize + 1;
      Refresh();
    }

    /** Takes l and r as children and recomputes bounds and size. */
    method Adopt(l: KDNode?<D>, r: KDNode?<D>)
      requires ValidOrNull(l) && ValidOrNull(r)
      requires this !in ReprOf(l) && this !in ReprOf(r) && ReprOf(l) !! ReprOf(r)
      modifies this
      ensures Valid() && repr == {this} + ReprOf(l) + ReprOf(r)
      ensures model == Joined(old(Entry(point, objectId, data)), old(splitDim), ModelOf(l), ModelOf(r))
    {
      left, right := l, r;
      UpdateBounds();
    }

    /** Recomputes bounds and size from the children. */
    method UpdateBounds()
      requires ValidOrNull(left) && ValidOrNull(right)
      requires this !in ReprOf(left) && this !in ReprOf(right) && ReprOf(left) !! ReprOf(right)
      modifies this`bounds, this`subtreeSize, this`model, this`repr
      ensures Valid() && repr == {this} + ReprOf(left) + ReprOf(right)
      ensures model == Joined(Entry(point, objectId, data), splitDim, ModelOf(left), ModelOf(right))
    {
      hide ExpandMBR, PointMBR;
      bounds, subtreeSize := PointMBR(point), 1;
      if left != null {
        bounds := ExpandMBR(bounds, left.bounds);
        subtreeSize := subtreeSize + left.subtreeSize;
      }
      if right != null {
        bounds := ExpandMBR(bounds, right.bounds);
        subtreeSize := subtreeSize + right.subtreeSize;
      }
      Refresh();
    }
  }

  // ---------- Bulk loading ----------

  lemma InsertedAbove<D>(s: seq<Entry<D>>, r: seq<Entry<D>>, e: Entry<D>, dim: nat)
    requires s != [] && SortedBy(s, dim) && Coord(s[0].point, dim) <= Coord(e.point, dim)
    requires multiset(r) == multiset(s[1..]) + multiset{e}
    requires SortedBy(r, dim)
    ensures SortedBy([s[0]] + r, dim)
    ensures multiset([s[0]] + r) == multiset(s) + multiset{e}
  {
    forall x | x in r ensures Coord(s[0].point, dim) <= Coord(x.point, dim) {
      assert x in multiset(r);
      assert x == e || x in s[1..];
    }
    assert s == [s[0]] + s[1..];
  }

  function InsertSorted<D>(s: seq<Entry<D>>, e: Entry<D>, dim: nat): (r: seq<Entry<D>>)
    requires SortedBy(s, dim)
    ensures SortedBy(r, dim) && multiset(r) == multiset(s) + multiset{e}
  {
    if s == [] then [e]
    else if Coord(e.point, dim) <= Coord(s[0].point, dim) then [e] + s
    else
      var r := InsertSorted(s[1..], e, dim);
      InsertedAbove(s, r, e, dim);
      [s[0]] + r
  }

  function Sorted<D>(s: seq<Entry<D>>, dim: nat): (r: seq<Entry<D>>)
    ensures SortedBy(r, dim) && multiset(r) == multiset(s)
  {
    if s == [] then []
    else
      assert s == [s[0]] + s[1..];
      InsertSorted(Sorted(s[1..], dim), s[0], dim)
  }

  /** C's qsort: all a caller may rely on is a sorted permutation, in no particular order among ties. */
  method QSort<D>(a: array<Entry<D>>, lo: nat, hi: nat, dim: nat)
    requires lo <= hi <= a.Length
    modifies a
    ensures forall i | 0 <= i < a.Length && !(lo <= i < hi) :: a[i] == old(a[i])
    ensures SortedBy(a[lo..hi], dim)
    ensures BagOf(a[lo..hi]) == BagOf(old(a[lo..hi]))
  {
    var s := Sorted(a[lo..hi], dim);
    assert |s| == hi - lo by { assert |multiset(s)| == |multiset(a[lo..hi])|; }
    forall i | lo <= i < hi { a[i] := s[i - lo]; }
    assert a[lo..hi] == s;
  }

  /** Builds a tree over the run points[lo..hi], which it permutes. */
  method BuildTreeRecursive<D>(points: array<Entry<D>>, lo: nat, hi: nat, depth: nat) returns (node: KDNode?<D>)
    requires lo <= hi <= points.Length
    modifies points
    ensures forall i | 0 <= i < points.Length && !(lo <= i < hi) :: points[i] == old(points[i])
    ensures ValidOrNull(node) && fresh(ReprOf(node))
    ensures node == null <==> lo == hi
    ensures Built(ModelOf(node), depth) && Bag(ModelOf(node)) == BagOf(old(points[lo..hi])) == BagOf(points[lo..hi])
    decreases hi - lo, 1
  {
    hide Built, Bag, BagOf, KDNode.Valid;
    var count := hi - lo;
    if count == 0 {
      BuiltNil<D>(depth);
      assert points[lo..hi] == [];
      return null;
    }
    node := BuildNode(points, lo, hi, depth);
  }

  lemma BagOfRun<D>(a: seq<Entry<D>>, b: seq<Entry<D>>, e: Entry<D>, c: seq<Entry<D>>, d: seq<Entry<D>>)
    requires BagOf(a) == BagOf(b) && BagOf(c) == BagOf(d)
    ensures BagOf(a + [e] + c) == BagOf(b + [e] + d)
  {
  }

  /** The case of at least one point: sort, take the median, build both sides. */
  method BuildNode<D>(points: array<Entry<D>>, lo: nat, hi: nat, depth: nat) returns (node: KDNode<D>)
    requires lo < hi <= points.Length
    modifies points
    ensures forall i | 0 <= i < points.Length && !(lo <= i < hi) :: points[i] == old(points[i])
    ensures node.Valid() && fresh(node.repr)
    ensures Built(node.model, depth) && Bag(node.model) == BagOf(old(points[lo..hi])) == BagOf(points[lo..hi])
    decreases hi - lo, 0
  {
    hide Joined, SortedBy, Built, Bag, BagOf, KDNode.Valid, PointMBR;
    QSort(points, lo, hi, depth % 2);
    var median := lo + (hi - lo) / 2;
    var e := points[median];
    ghost var low, high := points[lo..median], points[median + 1..hi];
    assert points[lo..hi] == low + [e] + high;
    var l := BuildTreeRecursive(points, lo, median, depth + 1);
    ghost var lm, left := ModelOf(l), points[lo..median];
    assert points[median + 1..hi] == high;
    var r := BuildTreeRecursive(points, median + 1, hi, depth + 1);
    BuildStep(low, e, high, lm, ModelOf(r), depth);
    assert points[lo..median] == left && points[lo..hi] == left + [e] + points[median + 1..hi];
    BagOfRun(left, low, e, points[median + 1..hi], high);
    node := new KDNode(e.point, e.id, e.data, depth % 2);
    node.Adopt(l, r);
  }

  // ---------- Insertion ----------

  /** One level of an insertion. */
  lemma InsertStep<D>(t: Tree<D>, e: Entry<D>, depth: nat)
    ensures match t
      case Nil => InsertTree(t, e, depth) == Leaf(e, depth)
      case Node(x, d, l, r, b, n) =>
        var left := Coord(e.point, d) < Coord(x.point, d);
        InsertTree(t, e, depth)
          == Node(x, d, if left then InsertTree(l, e, depth + 1) else l, if left then r else InsertTree(r, e, depth + 1),
                  ExpandPoint(b, e.point), n + 1)
  {
  }

  method InsertRecursive<D>(node: KDNode?<D>, p: Point, id: nat, data: D, depth: nat) returns (r: KDNode<D>)
    requires ValidOrNull(node)
    modifies ReprOf(node)
    ensures r.Valid() && fresh(r.repr - old(ReprOf(node)))
    ensures node != null ==> r == node
    ensures r.model == InsertTree(old(ModelOf(node)), Entry(p, id, data), depth)
    decreases ReprOf(node)
  {
    hide ExpandPoint, PointMBR, KDNode.Valid, InsertTree;
    InsertStep(ModelOf(node), Entry(p, id, data), depth);
    if node == null {
      r := new KDNode(p, id, data, depth % 2);
      return;
    }
    Children(node);
    var coord := if node.splitDim == 0 then p.x else p.y;
    var split := if node.splitDim == 0 then node.point.x else node.point.y;
    if coord < split {
      var l := InsertRecursive(node.left, p, id, data, depth + 1);
      node.left := l;
    } else {
      var g := InsertRecursive(node.right, p, id, data, depth + 1);
      node.right := g;
    }
    node.Grow(p);
    r := node;
  }

  // ---------- Recursive queries ----------

  class NNState<D> {
    const query: Point
    var best: Point
    var bestId: nat
    var bestData: D
    var bestDistSq: real

    ghost function Value(): Best<D>
      reads this
    {
      Best(Entry(best, bestId, bestData), bestDistSq)
    }

    constructor (q: Point, p: Point, id: nat, data: D, distSq: real)
      ensures query == q && Value() == Best(Entry(p, id, data), distSq)
    {
      query, best, bestId, bestData, bestDistSq := q, p, id, data, distSq;
    }
  }

  lemma LineDistSqOf(q: Point, p: Point, d: nat, diff: real)
    requires diff == Coord(q, d) - Coord(p, d)
    ensures LineDistSq(q, p, d) == diff * diff
  {
  }

  method NearestRecursive<D>(node: KDNode?<D>, state: NNState<D>)
    requires ValidOrNull(node)
    modifies state
    ensures state.Value() == NearestFrom(ModelOf(node), state.query, old(state.Value()))
    decreases ModelOf(node)
  {
    hide DistSq, LineDistSq, KDNode.Valid;
    if node == null { return; }
    Children(node);
    var distSq := DistSq(state.query, node.point);
    if distSq < state.bestDistSq {
      state.bestDistSq, state.best, state.bestId, state.bestData := distSq, node.point, node.objectId, node.data;
    }
    var coord := if node.splitDim == 0 then state.query.x else state.query.y;
    var split := if node.splitDim == 0 then node.point.x else node.point.y;
    var diff := coord - split;
    var first := if diff < 0.0 then node.left else node.right;
    var second := if diff < 0.0 then node.right else node.left;
    NearestRecursive(first, state);
    LineDistSqOf(state.query, node.point, node.splitDim, diff);
    if diff * diff < state.bestDistSq {
      NearestRecursive(second, state);
    }
  }

  /** A growing list of query hits; ids, points and data sit at the same index. */
  class KDQueryResult<D> {
    var items: seq<Entry<D>>

    constructor ()
      ensures items == []
    {
      items := [];
    }

    method Clear()
      modifies this
      ensures items == []
    {
      items := [];
    }

    method Add(p: Point, id: nat, data: D)
      modifies this
      ensures items == old(items) + [Entry(p, id, data)]
    {
      items := items + [Entry(p, id, data)];
    }
  }

  method RangeQueryRecursive<D>(node: KDNode?<D>, range: MBR, result: KDQueryResult<D>)
    requires ValidOrNull(node)
    modifies result
    ensures result.items == old(result.items) + RangeTree(ModelOf(node), range)
    decreases ModelOf(node)
  {
    hide Intersects, ContainsPoint, KDNode.Valid;
    if node == null { return; }
    Children(node);
    if !Intersects(node.bounds, range) { return; }
    ghost var before := result.items;
    if ContainsPoint(range, node.point) {
      result.Add(node.point, node.objectId, node.data);
    }
    ghost var hit := result.items;
    RangeQueryRecursive(node.left, range, result);
    RangeQueryRecursive(node.right, range, result);
    ghost var l, r := RangeTree(ModelOf(node.left), range), RangeTree(ModelOf(node.right), range);
    assert hit + l + r == before + (hit[|before|..] + l + r);
  }

  method DepthRecursive<D>(node: KDNode?<D>) returns (depth: nat)
    requires ValidOrNull(node)
    ensures depth == Height(ModelOf(node))
    decreases ModelOf(node)
  {
    if node == null { return 0; }
    var leftDepth := DepthRecursive(node.left);
    var rightDepth := DepthRecursive(node.right);
    return 1 + (if leftDepth > rightDepth then leftDepth else rightDepth);
  }

  function BoundsOf<D>(ts: seq<Tree<D>>): seq<MBR>
    requires forall t | t in ts :: t.Node?
  {
    if ts == [] then [] else [ts[0].bounds] + BoundsOf(ts[1..])
  }

  lemma {:induction false} BoundsOfConcat<D>(a: seq<Tree<D>>, b: seq<Tree<D>>)
    requires forall t | t in a + b :: t.Node?
    ensures (forall t | t in a :: t.Node?) && (forall t | t in b :: t.Node?)
    ensures BoundsOf(a + b) == BoundsOf(a) + BoundsOf(b)
  {
    if a == [] {
      assert a + b == b;
    } else {
      assert (a + b)[0] in a + b && (a + b)[1..] == a[1..] + b;
      BoundsOfConcat(a[1..], b);
    }
  }

  lemma {:induction false} BlockTreesAreNodes<D>(t: Tree<D>, max: nat)
    ensures forall b | b in BlockTrees(t, max) :: b.Node?
  {
    if t.Node? {
      BlockTreesAreNodes(t.left, max);
      BlockTreesAreNodes(t.right, max);
    }
  }

  /** The rectangles of the blocks of t. */
  ghost function Blocks<D>(t: Tree<D>, max: nat): seq<MBR> {
    BlockTreesAreNodes(t, max);
    BoundsOf(BlockTrees(t, max))
  }

  lemma {:induction false} BoundsOfAt<D>(ts: seq<Tree<D>>)
    requires forall t | t in ts :: t.Node?
    ensures |BoundsOf(ts)| == |ts| && forall i | 0 <= i < |ts| :: ts[i].Node? && BoundsOf(ts)[i] == ts[i].bounds
  {
    if ts != [] { BoundsOfAt(ts[1..]); }
  }

  lemma BlocksAre<D>(t: Tree<D>, max: nat)
    ensures |Blocks(t, max)| == |BlockTrees(t, max)|
    ensures forall i | 0 <= i < |Blocks(t, max)| ::
      var block := BlockTrees(t, max)[i]; block.Node? && Blocks(t, max)[i] == block.bounds
  {
    hide BlockTrees, BoundsOf;
    BlockTreesAreNodes(t, max);
    BoundsOfAt(BlockTrees(t, max));
  }

  lemma BlocksOfNil<D>(max: nat)
    ensures Blocks<D>(Nil, max) == []
  {
  }

  lemma BlocksOfNode<D>(t: Tree<D>, max: nat)
    requires t.Node?
    ensures Blocks(t, max) == if t.size <= max || (t.left.Nil? && t.right.Nil?) then [t.bounds]
                              else Blocks(t.left, max) + Blocks(t.right, max)
  {
    BlockTreesAreNodes(t, max);
    if t.size <= max || (t.left.Nil? && t.right.Nil?) {
      assert BoundsOf([t]) == [t.bounds] + BoundsOf<D>([]);
    } else {
      BoundsOfConcat(BlockTrees(t.left, max), BlockTrees(t.right, max));
    }
  }

  method CollectLeafBounds<D>(node: KDNode?<D>, maxSize: nat, bounds: seq<MBR>) returns (all: seq<MBR>)
    requires ValidOrNull(node)
    ensures all == bounds + Blocks(ModelOf(node), maxSize)
    decreases ModelOf(node)
  {
    hide BlockTrees, Blocks, BoundsOf;
    if node == null {
      BlocksOfNil<D>(maxSize);
      return bounds;
    }
    if node.subtreeSize <= maxSize || (node.left == null && node.right == null) {
      BlocksOfNode(node.model, maxSize);
      return bounds + [node.bounds];
    }
    all := CollectLeafBounds(node.left, maxSize, bounds);
    all := CollectLeafBounds(node.right, maxSize, all);
    ghost var l, r := ModelOf(node.left), ModelOf(node.right);
    BlocksOfNode(node.model, maxSize);
    assert bounds + Blocks(l, maxSize) + Blocks(r, maxSize) == bounds + (Blocks(l, maxSize) + Blocks(r, maxSize));
  }

  // ---------- The tree ----------

  datatype DistEntry = DistEntry(idx: nat, distSq: real)

  /** The position, from i on, of the least distance. */
  method FindMin(distances: array<DistEntry>, i: nat) returns (minIdx: nat)
    requires i < distances.Length
    ensures i <= minIdx < distances.Length
    ensures forall j | i <= j < distances.Length :: distances[minIdx].distSq <= distances[j].distSq
  {
    minIdx := i;
    for j := i + 1 to distances.Length
      invariant i <= minIdx < distances.Length
      invariant forall m | i <= m < j :: distances[minIdx].distSq <= distances[m].distSq
    {
      if distances[j].distSq < distances[minIdx].distSq { minIdx := j; }
    }
  }

  /** distances describes perm, a rearrangement of all. */
  ghost predicate Describes<D>(ds: seq<DistEntry>, perm: seq<Entry<D>>, all: seq<Entry<D>>, q: Point) {
    && |ds| == |perm|
    && forall j | 0 <= j < |ds| :: ds[j].idx < |all| && all[ds[j].idx] == perm[j] && ds[j].distSq == DistSq(q, perm[j].point)
  }

  lemma DescribesItself<D>(ds: seq<DistEntry>, all: seq<Entry<D>>, q: Point)
    requires |ds| == |all| && forall j | 0 <= j < |ds| :: ds[j] == DistEntry(j, DistSq(q, all[j].point))
    ensures Describes(ds, all, all, q)
  {
  }

  lemma DescribedEntry<D>(ds: seq<DistEntry>, perm: seq<Entry<D>>, all: seq<Entry<D>>, q: Point, i: nat)
    requires Describes(ds, perm, all, q) && i < |ds|
    ensures ds[i].idx < |all| && i < |perm| && all[ds[i].idx] == perm[i]
  {
  }

  method SwapEntries<D>(distances: array<DistEntry>, i: nat, m: nat, ghost perm: seq<Entry<D>>, ghost all: seq<Entry<D>>, ghost q: Point)
    returns (ghost swapped: seq<Entry<D>>)
    requires i < distances.Length && m < distances.Length
    requires Describes(distances[..], perm, all, q)
    modifies distances
    ensures |perm| == distances.Length && swapped == perm[i := perm[m]][m := perm[i]]
    ensures Describes(distances[..], swapped, all, q)
    ensures multiset(swapped) == multiset(perm)
  {
    hide DistSq;
    SwapKeepsMultiset(perm, i, m);
    swapped := perm[i := perm[m]][m := perm[i]];
    if m != i {
      distances[i], distances[m] := distances[m], distances[i];
    }
  }

  lemma MinIsSmallest<D>(ds: seq<DistEntry>, perm: seq<Entry<D>>, all: seq<Entry<D>>, q: Point, i: nat, m: nat)
    requires Describes(ds, perm, all, q) && i <= m < |ds|
    requires forall j | i <= j < |ds| :: ds[m].distSq <= ds[j].distSq
    ensures forall j | i <= j < |perm| :: DistSq(q, perm[m].point) <= DistSq(q, perm[j].point)
  {
  }

  /** Swapping the least of the rest into place i extends the selected prefix. */
  lemma SelectNext<D>(perm: seq<Entry<D>>, i: nat, m: nat, q: Point)
    requires FirstSmallest(perm, i, q) && i <= m < |perm|
    requires forall j | i <= j < |perm| :: DistSq(q, perm[m].point) <= DistSq(q, perm[j].point)
    ensures FirstSmallest(perm[i := perm[m]][m := perm[i]], i + 1, q)
    ensures perm[i := perm[m]][m := perm[i]][..i + 1] == perm[..i] + [perm[m]]
  {
    hide DistSq;
  }

  /** Partial selection sort: the k closest of all, in order, are appended to an empty result. */
  method SelectNearest<D>(all: seq<Entry<D>>, query: Point, k: nat, result: KDQueryResult<D>)
    requires result.items == []
    modifies result
    ensures KNearest(result.items, all, query, k)
  {
    hide DistSq, KNearest, Describes;
    var distances := new DistEntry[|all|](i requires 0 <= i < |all| => DistEntry(i, DistSq(query, all[i].point)));
    ghost var perm := all;
    assert Describes(distances[..], perm, all, query) by { DescribesItself(distances[..], all, query); }
    var i := 0;
    while i < k && i < |all|
      invariant i <= |all| && i <= k && distances.Length == |perm| == |all|
      invariant Describes(distances[..], perm, all, query)
      invariant multiset(perm) == multiset(all)
      invariant FirstSmallest(perm, i, query)
      invariant result.items == perm[..i]
    {
      var minIdx := FindMin(distances, i);
      MinIsSmallest(distances[..], perm, all, query, i, minIdx);
      SelectNext(perm, i, minIdx, query);
      perm := SwapEntries(distances, i, minIdx, perm, all, query);
      DescribedEntry(distances[..], perm, all, query, i);
      var idx := distances[i].idx;
      result.Add(all[idx].point, all[idx].id, all[idx].data);
      i := i + 1;
    }
    KNearestFromPrefix(perm, all, query, k, i);
  }

  lemma KNearestFrom<D>(out: seq<Entry<D>>, all: seq<Entry<D>>, q: Point, k: nat)
    requires KNearest(out, all, q, k)
    ensures forall e | e in out :: e in all
  {
    forall e | e in out ensures e in all { assert e in multiset(out) && e in multiset(all); }
  }

  class KDTree<D> {
    var root: KDNode?<D>
    var size: nat
    var bounds: MBR

    ghost function Model(): Tree<D>
      reads this, root
    {
      ModelOf(root)
    }

    ghost function Stored(): seq<Entry<D>>
      reads this, root
    {
      Elements(Model())
    }

    ghost function Nodes(): set<KDNode<D>>
      reads this, root
    {
      ReprOf(root)
    }

    ghost predicate Valid()
      reads this, root, ReprOf(root)
    {
      && ValidOrNull(root)
      && WellFormed(Model(), 0)
      && size == |Stored()|
      && Encloses(bounds, Stored())
    }

    /** The size tells whether anything is stored. */
    lemma EmptyTree()
      requires Valid()
      ensures size == 0 <==> Stored() == []
    {
    }

    constructor ()
      ensures Valid() && Stored() == [] && Nodes() == {}
    {
      root, size, bounds := null, 0, EMPTY_MBR;
    }

    method Insert(p: Point, id: nat, data: D)
      requires Valid()
      modifies this, Nodes()
      ensures Valid() && fresh(Nodes() - old(Nodes()))
      ensures Model() == InsertTree(old(Model()), Entry(p, id, data), 0)
      ensures multiset(Stored()) == old(multiset(Stored())) + multiset{Entry(p, id, data)}
    {
      hide WellFormed, Encloses, Elements, InsertTree, ExpandPoint, KDNode.Valid;
      ghost var e := Entry(p, id, data);
      InsertKeepsWellFormed(Model(), e, 0);
      InsertAddsOne(Model(), e, 0);
      EnclosesInsert(bounds, Stored(), e, Elements(InsertTree(Model(), e, 0)));
      InsertMembers(Model(), e, 0);
      root := InsertRecursive(root, p, id, data, 0);
      bounds := ExpandPoint(bounds, p);
      size := size + 1;
    }

    /** Rebuilds the tree over points; no points at all leave the old tree in place. */
    method BulkLoad(points: seq<Entry<D>>)
      requires Valid()
      modifies this
      ensures Valid() && fresh(Nodes() - old(Nodes()))
      ensures points == [] ==> Model() == old(Model())
      ensures points != [] ==> Built(Model(), 0) && multiset(Stored()) == multiset(points)
    {
      hide WellFormed, Encloses, Elements, Bag, Built, Halved, ExpandPoint, KDNode.Valid;
      if |points| == 0 { return; }
      root, size, bounds := null, 0, EMPTY_MBR;
      var copy := new Entry<D>[|points|](i requires 0 <= i < |points| => points[i]);
      assert copy[0..copy.Length] == points;
      root := BuildTreeRecursive(copy, 0, copy.Length, 0);
      BuiltIsWellFormed(Model(), 0);
      BagOfElements(Model());
      SameMultiset(Stored(), points);
      size := |points|;
      EnclosesEmpty<D>();
      for i := 0 to |points|
        invariant Encloses(bounds, points[..i])
        modifies this`bounds
      {
        assert points[..i + 1] == points[..i] + [points[i]];
        EnclosesInsert(bounds, points[..i], points[i], points[..i + 1]);
        bounds := ExpandPoint(bounds, points[i].point);
      }
      assert points[..|points|] == points;
      EnclosesPermutation(bounds, points, Stored());
    }

    /** A nearest stored entry; nothing for an empty tree. */
    method Nearest(query: Point) returns (found: Option<Entry<D>>)
      requires Valid()
      ensures found == NearestEntry(Model(), query)
      ensures match found case None => Stored() == [] case Some(e) => IsNearest(e, Stored(), query)
    {
      hide DistSq, NearestFrom, Ordered, Annotated, Elements, IsNearest;
      NearestEntryIsNearest(Model(), query);
      if root == null { return None; }
      var state := new NNState(query, root.point, root.objectId, root.data, DBL_MAX);
      NearestRecursive(root, state);
      return Some(Entry(state.best, state.bestId, state.bestData));
    }

    /** Every stored entry inside range, as often as it is stored. */
    method RangeQuery(range: MBR, result: KDQueryResult<D>)
      requires Valid()
      modifies result
      ensures result.items == Filter(Stored(), InRange(range))
    {
      hide KDNode.Valid, Filter, RangeTree, Elements, Annotated, Ordered;
      RangeIsScan(Model(), range, 0);
      result.Clear();
      RangeQueryRecursive(root, range, result);
    }

    /** Every stored entry within radius of query, as often as it is stored. */
    method RadiusQuery(query: Point, radius: real, result: KDQueryResult<D>)
      requires Valid()
      modifies result
      ensures result.items == if radius >= 0.0 then Filter(Stored(), InRadius(query, radius * radius)) else []
    {
      hide DistSq, Elements, Annotated, Ordered, Tight, Filter, KDNode.Valid;
      var box := new KDQueryResult<D>();
      RangeQuery(RadiusBox(query, radius), box);
      result.Clear();
      var radiusSq := radius * radius;
      for i := 0 to |box.items|
        invariant result.items == Filter(box.items[..i], InRadius(query, radiusSq))
        invariant box.items == Filter(Stored(), InRange(RadiusBox(query, radius)))
        modifies result
      {
        FilterPrefix(box.items, i, InRadius(query, radiusSq));
        if DistSq(query, box.items[i].point) <= radiusSq {
          result.Add(box.items[i].point, box.items[i].id, box.items[i].data);
        }
      }
      assert box.items[..|box.items|] == box.items;
      RadiusIsScan(Stored(), query, radius);
    }

    /** The k nearest entries; an empty tree is an error, and k == 0 leaves result as it was. */
    method KNearestQuery(query: Point, k: nat, result: KDQueryResult<D>) returns (ok: bool)
      requires Valid()
      modifies result
      ensures ok <==> Stored() != []
      ensures !ok || k == 0 ==> result.items == old(result.items)
      ensures ok && k > 0 ==> forall e | e in result.items :: e in Stored()
      ensures ok && k > 0 && AllFinite(Stored()) ==> KNearest(result.items, Stored(), query, k)
    {
      hide DistSq, Elements, Annotated, Ordered, Tight, KNearest, AllFinite, KDNode.Valid;
      NodesStore(Model());
      if root == null { return false; }
      if k == 0 { return true; }
      result.Clear();
      var all := new KDQueryResult<D>();
      if AllFinite(Stored()) { WholeRange(Model(), bounds); }
      RangeIsScan(Model(), bounds, 0);
      RangeQueryRecursive(root, bounds, all);
      assert AllFinite(Stored()) ==> all.items == Stored();
      SelectNearest(all.items, query, k, result);
      KNearestFrom(result.items, all.items, query, k);
      return true;
    }

    method Partition(maxPointsPerBlock: nat) returns (blocks: seq<MBR>)
      requires Valid()
      ensures blocks == Blocks(Model(), maxPointsPerBlock)
      ensures |blocks| == |BlockTrees(Model(), maxPointsPerBlock)|
      ensures forall i | 0 <= i < |blocks| ::
        var block := BlockTrees(Model(), maxPointsPerBlock)[i]; block.Node? && blocks[i] == block.bounds
    {
      BlocksAre(Model(), maxPointsPerBlock);
      if root == null { return []; }
      blocks := CollectLeafBounds(root, maxPointsPerBlock, []);
    }

    method Depth() returns (depth: nat)
      requires Valid()
      ensures depth == Height(Model())
    {
      depth := DepthRecursive(root);
    }

    method IsBalanced() returns (balanced: bool)
      requires Valid()
      ensures balanced <==> Height(Model()) <= 2 * OptimalHeight(|Stored()|)
      ensures Built(Model(), 0) ==> balanced
    {
      hide Height, OptimalHeight, Elements, WellFormed, Halved, Built;
      EmptyHeight<D>();
      if root == null { return true; }
      var depth := Depth();
      var optimal := OptimalHeight(size);
      if Built(Model(), 0) {
        BuiltIsWellFormed(Model(), 0);
        HalvedHeightIsOptimal(Model());
      }
      return depth <= 2 * optimal;
    }
  }
}
