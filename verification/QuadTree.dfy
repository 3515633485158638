// The quadtree of src/quadtree.c: heap nodes updated in place, proved against the values of QuadSpec.
module QuadTrees {
  import opened Geometry
  import opened Seqs
  import opened QuadSpec

  class QTNode<D> {
    var bounds: MBR
    var items: seq<Item<D>>
    var children: seq<QTNode<D>>     // none, or NW, NE, SW, SE
    var depth: nat
    var isLeaf: bool
    ghost var model: Quad<D>         // the value of this subtree
    ghost var repr: set<QTNode<D>>   // its nodes

    ghost predicate Valid()
      reads this, repr
      decreases repr
      ensures Valid() ==> this in repr && model.bounds == bounds && model.depth == depth && model.items == items
    {
      && this in repr
      && isLeaf == (children == [])
      && model.bounds == bounds && model.depth == depth && model.items == items
      && |model.kids| == |children|
      && (forall i | 0 <= i < |children| ::
            && children[i] in repr && children[i].repr <= repr && this !in children[i].repr
            && children[i].Valid() && children[i].model == model.kids[i])
      && (forall i, j | 0 <= i < j < |children| :: children[i].repr !! children[j].repr)
    }

    constructor (b: MBR, d: nat)
      ensures Valid() && repr == {this} && children == []
      ensures model == EmptyLeaf(b, d)
    {
      bounds, depth, isLeaf := b, d, true;
      items, children := [], [];
      model := EmptyLeaf(b, d);
      repr := {this};
    }
  }

  /** What a valid node says about its children, without unfolding it. */
  lemma Children<D>(n: QTNode<D>)
    requires n.Valid()
    ensures n.isLeaf == (n.children == [])
    ensures n.model == Quad(n.bounds, n.depth, n.items, n.model.kids) && |n.model.kids| == |n.children|
    ensures forall i | 0 <= i < |n.children| ::
      && n.children[i] in n.repr && n.children[i].repr <= n.repr && n !in n.children[i].repr
      && n.children[i].Valid() && n.children[i].model == n.model.kids[i]
    ensures forall i, j | 0 <= i < j < |n.children| :: n.children[i].repr !! n.children[j].repr
  {
  }

  /** A growing list of query hits. */
  class QTQueryResult<D> {
    var items: seq<Item<D>>

    constructor ()
      ensures items == []
    {
      items := [];
    }

    method Clear()
      modifies this
      ensures items == []
    {
      items := [];
    }

    method Add(x: Item<D>)
      modifies this
      ensures items == old(items) + [x]
    {
      items := items + [x];
    }
  }

  // ---------- Splitting ----------

  /** Separate leaves with the values kids. */
  ghost predicate Leaves<D>(children: seq<QTNode<D>>, kids: seq<Quad<D>>)
    reads children
  {
    && |children| == |kids|
    && (forall i | 0 <= i < |children| ::
          children[i].repr == {children[i]} && children[i].Valid() && children[i].model == kids[i] && kids[i].kids == [])
    && (forall i, j | 0 <= i < j < |children| :: children[i] != children[j])
  }

  /** Moves x into the first child that contains it and has room; nowhere if there is none. */
  method Place<D>(children: seq<QTNode<D>>, x: Item<D>, cap: nat, ghost kids: seq<Quad<D>>)
    requires Leaves(children, kids)
    modifies children
    ensures var q := FirstRoom(kids, x.bounds, cap);
      Leaves(children, if q < |kids| then kids[q := Append(kids[q], x)] else kids)
  {
    var q := 0;
    while q < |children| && !(ContainsMBR(children[q].bounds, x.bounds) && |children[q].items| < cap)
      invariant q <= |children|
      invariant forall i | 0 <= i < q :: !(ContainsMBR(kids[i].bounds, x.bounds) && |kids[i].items| < cap)
    {
      q := q + 1;
    }
    assert q == FirstRoom(kids, x.bounds, cap);
    if q < |children| {
      children[q].items := children[q].items + [x];
      children[q].model := Append(kids[q], x);
    }
  }

  /** The four empty children of a node with bounds b. */
  method CreateChildren<D>(b: MBR, depth: nat) returns (children: seq<QTNode<D>>)
    ensures Leaves(children, EmptyKids(b, depth)) && |children| == 4
    ensures fresh(children)
  {
    hide QTNode.Valid;
    var midX, midY := (b.minX + b.maxX) / 2.0, (b.minY + b.maxY) / 2.0;
    var nw := new QTNode<D>(MBR(b.minX, midY, midX, b.maxY), depth);
    var ne := new QTNode<D>(MBR(midX, midY, b.maxX, b.maxY), depth);
    var sw := new QTNode<D>(MBR(b.minX, b.minY, midX, midY), depth);
    var se := new QTNode<D>(MBR(midX, b.minY, b.maxX, midY), depth);
    children := [nw, ne, sw, se];
  }

  /** Moves items into the children one by one. */
  method Redistribute<D>(children: seq<QTNode<D>>, items: seq<Item<D>>, cap: nat, ghost kids: seq<Quad<D>>)
    requires Leaves(children, kids)
    modifies children
    ensures Leaves(children, Distribute(kids, items, cap))
  {
    hide Leaves, FirstRoom;
    ghost var now := kids;
    for i := 0 to |items|
      invariant Leaves(children, now)
      invariant Distribute(now, items[i..], cap) == Distribute(kids, items, cap)
    {
      Place(children, items[i], cap, now);
      ghost var q := FirstRoom(now, items[i].bounds, cap);
      now := if q < |now| then now[q := Append(now[q], items[i])] else now;
      assert items[i..][1..] == items[i + 1..];
    }
  }

  /** A node over separate leaves is valid. */
  lemma ValidOverLeaves<D>(node: QTNode<D>, children: seq<QTNode<D>>, kids: seq<Quad<D>>)
    requires Leaves(children, kids) && node !in children && children != []
    requires node.children == children && !node.isLeaf && node.repr == {node} + (set c | c in children)
    requires node.model == Quad(node.bounds, node.depth, node.items, kids)
    ensures node.Valid()
  {
  }

  method SplitNode<D>(node: QTNode<D>, cap: nat)
    requires node.Valid() && node.isLeaf
    modifies node
    ensures node.Valid() && fresh(node.repr - old(node.repr))
    ensures node.model == Split(old(node.model), cap)
  {
    hide Distribute, EmptyKids, Leaves, QTNode.Valid;
    ghost var t := node.model;
    ghost var kids := EmptyKids<D>(node.bounds, node.depth + 1);
    var children := CreateChildren<D>(node.bounds, node.depth + 1);
    Redistribute(children, node.items, cap, kids);
    node.children, node.isLeaf, node.items := children, false, [];
    node.model := Quad(t.bounds, t.depth, [], Distribute(kids, t.items, cap));
    node.repr := {node} + (set c | c in children);
    ValidOverLeaves(node, children, Distribute(kids, t.items, cap));
  }

  // ---------- Insertion and removal ----------

  /** Brings node's ghost value back in line after its q-th child changed. */
  ghost method RefreshChild<D>(node: QTNode<D>, q: nat, before: seq<Quad<D>>)
    requires q < |node.children| == |before| == |node.model.kids|
    requires node.model == Quad(node.bounds, node.depth, node.items, before) && !node.isLeaf && node in node.repr
    requires forall i | 0 <= i < |node.children| && i != q ::
      && node.children[i] in node.repr && node.children[i].repr <= node.repr && node !in node.children[i].repr
      && node.children[i].Valid() && node.children[i].model == before[i]
    requires node.children[q].Valid() && node !in node.children[q].repr
    requires forall i, j | 0 <= i < j < |node.children| :: node.children[i].repr !! node.children[j].repr
    modifies node`model, node`repr
    ensures node.Valid() && node.repr == old(node.repr) + node.children[q].repr
    ensures node.model == Quad(node.bounds, node.depth, node.items, before[q := node.children[q].model])
  {
    node.model := node.model.(kids := before[q := node.children[q].model]);
    node.repr := node.repr + node.children[q].repr;
  }

  method InsertNode<D>(node: QTNode<D>, x: Item<D>, cap: nat, maxDepth: nat) returns (ok: bool)
    requires node.Valid() && Layered(node.model, maxDepth)
    modifies node.repr
    ensures node.Valid() && fresh(node.repr - old(node.repr))
    ensures ok <==> Intersects(old(node.bounds), x.bounds)
    ensures node.model == if ok then InsertIn(old(node.model), x, cap, maxDepth) else old(node.model)
    decreases maxDepth - node.depth, node.isLeaf
  {
    hide Intersects, Split, Layered, QTNode.Valid;
    Children(node);
    if !Intersects(node.bounds, x.bounds) { return false; }
    if node.isLeaf {
      if |node.items| >= cap && node.depth < maxDepth {
        SplitLayered(node.model, cap, maxDepth);
        SplitEmpties(node.model, cap);
        SplitNode(node, cap);
        Children(node);
        ok := InsertNode(node, x, cap, maxDepth);
        return;
      }
      AppendToNode(node, x);
      return true;
    }
    var q := 0;
    while q < |node.children| && !ContainsMBR(node.children[q].bounds, x.bounds)
      invariant q <= |node.children|
      invariant forall i | 0 <= i < q :: !ContainsMBR(node.model.kids[i].bounds, x.bounds)
    {
      q := q + 1;
    }
    assert q == FirstFit(node.model.kids, x.bounds);
    if q < |node.children| {
      ghost var before := node.model.kids;
      LayeredKid(node.model, q, maxDepth);
      ContainedMeets(node.children[q].bounds, x.bounds);
      ok := InsertNode(node.children[q], x, cap, maxDepth);
      RefreshChild(node, q, before);
      return;
    }
    AppendToNode(node, x);
    return true;
  }

  lemma ContainedMeets(b: MBR, m: MBR)
    requires ContainsMBR(b, m)
    ensures Intersects(b, m)
  {
  }

  lemma LayeredKid<D>(t: Quad<D>, q: nat, maxDepth: nat)
    requires Layered(t, maxDepth) && q < |t.kids|
    ensures Layered(t.kids[q], maxDepth) && t.kids[q].depth == t.depth + 1 <= maxDepth
  {
    assert t.kids[q] in t.kids;
  }

  method AppendToNode<D>(node: QTNode<D>, x: Item<D>)
    requires node.Valid()
    modifies node`items, node`model
    ensures node.Valid() && node.model == Append(old(node.model), x)
  {
    node.items := node.items + [x];
    node.model := Append(node.model, x);
  }

  lemma RemoveInKids<D>(t: Quad<D>, id: nat)
    ensures IndexOf(t.items, id) == |t.items| ==>
      RemoveIn(t, id) == match RemoveOf(t.kids, id) case None => None case Some(kids) => Some(t.(kids := kids))
    ensures Prefixed(t.kids[..0], RemoveOf(t.kids[0..], id)) == RemoveOf(t.kids, id)
    ensures Prefixed(t.kids, RemoveOf([], id)) == None
  {
    assert t.kids[0..] == t.kids;
    if RemoveOf(t.kids, id).Some? { assert [] + RemoveOf(t.kids, id).value == RemoveOf(t.kids, id).value; }
  }

  /** Removes the first item with this id below node; false if there is none. */
  method RemoveNode<D>(node: QTNode<D>, id: nat) returns (found: bool)
    requires node.Valid()
    modifies node.repr
    ensures node.Valid() && node.repr == old(node.repr)
    ensures found <==> RemoveIn(old(node.model), id).Some?
    ensures node.model == if found then RemoveIn(old(node.model), id).value else old(node.model)
    decreases node.model
  {
    hide QTNode.Valid, RemoveOf, Prefixed, IndexOf, Without;
    Children(node);
    ghost var t := node.model;
    RemoveInKids(t, id);
    var i := 0;
    while i < |node.items| && node.items[i].id != id
      invariant i <= |node.items|
      invariant forall j | 0 <= j < i :: node.items[j].id != id
    {
      i := i + 1;
    }
    IndexOfUnique(node.items, id, i);
    if i < |node.items| {
      DropItem(node, i);
      return true;
    }
    var q := 0;
    while q < |node.children|
      invariant q <= |node.children| == |t.kids|
      invariant node.Valid() && node.model == t && node.repr == old(node.repr)
      invariant RemoveOf(t.kids, id) == Prefixed(t.kids[..q], RemoveOf(t.kids[q..], id))
    {
      Children(node);
      RemoveOfStep(t.kids, q, id);
      found := RemoveNode(node.children[q], id);
      RefreshChild(node, q, t.kids);
      if found { return; }
      assert t.kids[q := t.kids[q]] == t.kids;
      q := q + 1;
    }
    assert t.kids[q..] == [] && t.kids[..q] == t.kids;
    return false;
  }

  /** The result of a removal from the rest of a list, put after its searched part. */
  function Prefixed<T>(before: seq<T>, rest: Option<seq<T>>): Option<seq<T>> {
    match rest
    case None => None
    case Some(r) => Some(before + r)
  }

  /** One kid more has been searched. */
  lemma RemoveOfStep<D>(kids: seq<Quad<D>>, q: nat, id: nat)
    requires q < |kids|
    ensures match RemoveIn(kids[q], id)
      case Some(k) => Prefixed(kids[..q], RemoveOf(kids[q..], id)) == Some(kids[q := k])
      case None => Prefixed(kids[..q], RemoveOf(kids[q..], id)) == Prefixed(kids[..q + 1], RemoveOf(kids[q + 1..], id))
  {
    assert kids[q..][1..] == kids[q + 1..];
    match RemoveIn(kids[q], id)
    case Some(k) => assert kids[..q] + ([k] + kids[q + 1..]) == kids[q := k];
    case None =>
      match RemoveOf(kids[q + 1..], id)
      case None =>
      case Some(rest) => assert kids[..q] + ([kids[q]] + rest) == kids[..q + 1] + rest;
  }

  method DropItem<D>(node: QTNode<D>, i: nat)
    requires node.Valid() && i < |node.items|
    modifies node`items, node`model
    ensures node.Valid()
    ensures node.model == old(node.model).(items := Without(old(node.items), i))
  {
    node.items := node.items[..i] + node.items[i + 1..];
    node.model := node.model.(items := node.items);
  }

  // ---------- Queries ----------

  method AddMeeting<D>(items: seq<Item<D>>, range: MBR, result: QTQueryResult<D>)
    modifies result
    ensures result.items == old(result.items) + Filter(items, Meets(range))
  {
    hide Intersects, Filter;
    FilterNone<Item<D>>([], Meets(range));
    for i := 0 to |items|
      invariant result.items == old(result.items) + Filter(items[..i], Meets(range))
    {
      FilterPrefix(items, i, Meets(range));
      if Intersects(items[i].bounds, range) {
        result.Add(items[i]);
      }
    }
    assert items[..|items|] == items;
  }

  method QueryRangeNode<D>(node: QTNode<D>, range: MBR, result: QTQueryResult<D>)
    requires node.Valid()
    modifies result
    ensures result.items == old(result.items) + RangeIn(node.model, range)
    decreases node.model
  {
    hide QTNode.Valid, Intersects, Filter;
    Children(node);
    if !Intersects(node.bounds, range) { return; }
    AddMeeting(node.items, range, result);
    ghost var before, kids := result.items, node.model.kids;
    if !node.isLeaf {
      for q := 0 to |node.children|
        invariant result.items + RangeOf(kids[q..], range) == before + RangeOf(kids, range)
      {
        ghost var rest := RangeOf(kids[q + 1..], range);
        assert kids[q..][1..] == kids[q + 1..];
        ghost var now, added := result.items, RangeIn(kids[q], range);
        QueryRangeNode(node.children[q], range, result);
        assert now + added + rest == now + (added + rest);
      }
      assert kids[|node.children|..] == [];
    }
    assert result.items == before + RangeOf(kids, range);
  }

  method AddCovering<D>(items: seq<Item<D>>, p: Point, result: QTQueryResult<D>)
    modifies result
    ensures result.items == old(result.items) + Filter(items, Covers(p))
  {
    hide ContainsPoint, Filter;
    FilterNone<Item<D>>([], Covers(p));
    for i := 0 to |items|
      invariant result.items == old(result.items) + Filter(items[..i], Covers(p))
    {
      FilterPrefix(items, i, Covers(p));
      if ContainsPoint(items[i].bounds, p) {
        result.Add(items[i]);
      }
    }
    assert items[..|items|] == items;
  }

  method QueryPointNode<D>(node: QTNode<D>, p: Point, result: QTQueryResult<D>)
    requires node.Valid()
    modifies result
    ensures result.items == old(result.items) + PointIn(node.model, p)
    decreases node.model
  {
    hide QTNode.Valid, ContainsPoint, Filter;
    Children(node);
    if !ContainsPoint(node.bounds, p) { return; }
    AddCovering(node.items, p, result);
    ghost var before, kids := result.items, node.model.kids;
    if !node.isLeaf {
      for q := 0 to |node.children|
        invariant result.items + PointOf(kids[q..], p) == before + PointOf(kids, p)
      {
        ghost var rest := PointOf(kids[q + 1..], p);
        assert kids[q..][1..] == kids[q + 1..];
        ghost var now, added := result.items, PointIn(kids[q], p);
        QueryPointNode(node.children[q], p, result);
        assert now + added + rest == now + (added + rest);
      }
      assert kids[|node.children|..] == [];
    }
    assert result.items == before + PointOf(kids, p);
  }

  method CollectAllNode<D>(node: QTNode<D>, result: QTQueryResult<D>)
    requires node.Valid()
    modifies result
    ensures result.items == old(result.items) + All(node.model)
    decreases node.model
  {
    hide QTNode.Valid;
    Children(node);
    ghost var start, kids := result.items, node.model.kids;
    for i := 0 to |node.items|
      invariant result.items == start + node.items[..i]
    {
      result.Add(node.items[i]);
    }
    ghost var before := result.items;
    assert before == start + node.items;
    if !node.isLeaf {
      for q := 0 to |node.children|
        invariant result.items + AllOf(kids[q..]) == before + AllOf(kids)
      {
        ghost var rest := AllOf(kids[q + 1..]);
        assert kids[q..][1..] == kids[q + 1..];
        ghost var now, added := result.items, All(kids[q]);
        CollectAllNode(node.children[q], result);
        assert now + added + rest == now + (added + rest);
      }
      assert kids[|node.children|..] == [];
    }
    assert result.items == before + AllOf(kids);
  }

  method FindNode<D>(node: QTNode<D>, id: nat) returns (found: Option<Item<D>>)
    requires node.Valid()
    ensures found == FindIn(node.model, id)
    decreases node.model
  {
    hide QTNode.Valid;
    Children(node);
    ghost var kids := node.model.kids;
    for i := 0 to |node.items|
      invariant forall j | 0 <= j < i :: node.items[j].id != id
    {
      if node.items[i].id == id { return Some(node.items[i]); }
    }
    if !node.isLeaf {
      for q := 0 to |node.children|
        invariant FindOf(kids[q..], id) == FindOf(kids, id)
      {
        assert kids[q..][1..] == kids[q + 1..];
        found := FindNode(node.children[q], id);
        if found.Some? { return; }
      }
      assert kids[|node.children|..] == [];
    }
    return None;
  }

  // ---------- The tree ----------

  const QT_DEFAULT_CAPACITY := 8
  const QT_MAX_DEPTH := 20

  datatype Status = OK | ErrBounds | ErrNotFound

  class QuadTree<D> {
    var root: QTNode<D>
    var totalItems: nat
    var nodeCapacity: nat
    var maxDepth: nat
    ghost var dropped: multiset<Item<D>>   // what splits have dropped so far

    ghost function Model(): Quad<D>
      reads this, root
    {
      root.model
    }

    ghost function Stored(): seq<Item<D>>
      reads this, root
    {
      All(root.model)
    }

    ghost function Nodes(): set<QTNode<D>>
      reads this, root
    {
      root.repr
    }

    ghost predicate Valid()
      reads this, root, root.repr
    {
      && root.Valid()
      && nodeCapacity > 0 && maxDepth > 0
      && Placed(root.model, nodeCapacity, maxDepth)
      && (forall x | x in Stored() :: !IsEmpty(x.bounds))
      && totalItems == |Stored()| + |dropped|
    }

    constructor (bounds: MBR, capacity: nat, depthLimit: int)
      ensures Valid() && fresh(Nodes()) && Stored() == [] && dropped == multiset{}
      ensures root.bounds == bounds
      ensures nodeCapacity == if capacity > 0 then capacity else 8
      ensures maxDepth == if depthLimit > 0 then depthLimit else 20
    {
      nodeCapacity := if capacity > 0 then capacity else QT_DEFAULT_CAPACITY;
      maxDepth := if depthLimit > 0 then depthLimit else QT_MAX_DEPTH;
      totalItems, dropped := 0, multiset{};
      root := new QTNode(bounds, 0);
      new;
      assert All(EmptyLeaf<D>(bounds, 0)) == [] + AllOf([]) == [];
    }

    /** Inserts an item that meets the root bounds; the ledger records what its splits drop. */
    method InsertWithCentroid(id: nat, bounds: MBR, centroid: Point, data: D) returns (status: Status)
      requires Valid()
      modifies this, Nodes()
      ensures Valid() && fresh(Nodes() - old(Nodes()))
      ensures root == old(root) && root.bounds == old(root.bounds)
      ensures nodeCapacity == old(nodeCapacity) && maxDepth == old(maxDepth)
      ensures status == if Intersects(old(root.bounds), bounds) then OK else ErrBounds
      ensures status != OK ==> Model() == old(Model()) && dropped == old(dropped)
      ensures status == OK ==>
        && Model() == Inserted(old(Model()), Item(id, bounds, centroid, data), old(nodeCapacity), old(maxDepth))
        && dropped == old(dropped) + multiset(Lost(old(Model()), Item(id, bounds, centroid, data), old(nodeCapacity), old(maxDepth)))
        && Item(id, bounds, centroid, data) in Stored()
        && multiset(Stored()) + dropped == old(multiset(Stored()) + dropped) + multiset{Item(id, bounds, centroid, data)}
    {
      hide Placed, Layered, InsertIn, InsertDrops, All, QTNode.Valid;
      ghost var t := root.model;
      var x := Item(id, bounds, centroid, data);
      PlacedIsLayered(t, nodeCapacity, maxDepth);
      InsertLedger(t, x, nodeCapacity, maxDepth);
      MeetsIsNonEmpty(root.bounds, bounds);
      var ok := InsertNode(root, x, nodeCapacity, maxDepth);
      if !ok { return ErrBounds; }
      ghost var lost := multiset(Lost(t, x, nodeCapacity, maxDepth));
      LedgerSums(multiset(Stored()), dropped, lost, multiset(All(t)), multiset{x});
      dropped := dropped + lost;
      totalItems := totalItems + 1;
      return OK;
    }

    method Insert(id: nat, bounds: MBR, data: D) returns (status: Status)
      requires Valid()
      modifies this, Nodes()
      ensures Valid() && fresh(Nodes() - old(Nodes()))
      ensures root == old(root) && root.bounds == old(root.bounds)
      ensures nodeCapacity == old(nodeCapacity) && maxDepth == old(maxDepth)
      ensures status == if Intersects(old(root.bounds), bounds) then OK else ErrBounds
      ensures status != OK ==> Model() == old(Model()) && dropped == old(dropped)
      ensures status == OK ==>
        && Model() == Inserted(old(Model()), Item(id, bounds, Center(bounds), data), old(nodeCapacity), old(maxDepth))
        && dropped == old(dropped) + multiset(Lost(old(Model()), Item(id, bounds, Center(bounds), data), old(nodeCapacity), old(maxDepth)))
        && Item(id, bounds, Center(bounds), data) in Stored()
        && multiset(Stored()) + dropped == old(multiset(Stored()) + dropped) + multiset{Item(id, bounds, Center(bounds), data)}
    {
      status := InsertWithCentroid(id, bounds, Center(bounds), data);
    }

    /** Removes the first stored item with this id. */
    method Remove(id: nat) returns (status: Status)
      requires Valid()
      modifies this, Nodes()
      ensures Valid() && Nodes() == old(Nodes()) && dropped == old(dropped)
      ensures root == old(root) && root.bounds == old(root.bounds)
      ensures nodeCapacity == old(nodeCapacity) && maxDepth == old(maxDepth)
      ensures status == if IndexOf(old(Stored()), id) < |old(Stored())| then OK else ErrNotFound
      ensures status == OK ==> Stored() == Without(old(Stored()), IndexOf(old(Stored()), id))
      ensures status != OK ==> Model() == old(Model())
    {
      hide Placed, All, IndexOf, RemoveIn, QTNode.Valid;
      RemoveIsFirst(root.model, id);
      if RemoveIn(root.model, id).Some? {
        RemoveKeepsPlaced(root.model, id, nodeCapacity, maxDepth);
      }
      var found := RemoveNode(root, id);
      if !found { return ErrNotFound; }
      totalItems := totalItems - 1;
      return OK;
    }

    /** Moves the first item with this id; an item whose new rectangle misses the root bounds is gone. */
    method Update(id: nat, newBounds: MBR) returns (status: Status)
      requires Valid()
      modifies this, Nodes()
      ensures Valid() && fresh(Nodes() - old(Nodes()))
      ensures var i, s := IndexOf(old(Stored()), id), old(Stored());
        && (i == |s| ==> status == ErrNotFound && Model() == old(Model()) && dropped == old(dropped))
        && (i < |s| ==>
              var moved := Item(id, newBounds, Center(newBounds), s[i].data);
              if Intersects(old(root.bounds), newBounds)
              then status == OK && multiset(Stored()) + dropped == multiset(Without(s, i)) + old(dropped) + multiset{moved}
              else status == ErrBounds && Stored() == Without(s, i) && dropped == old(dropped))
    {
      hide Placed, All, IndexOf, FindIn, Without, Intersects, QTNode.Valid;
      FindIsFirst(root.model, id);
      var item := FindNode(root, id);
      if item.None? { return ErrNotFound; }
      var removed := Remove(id);
      status := Insert(id, newBounds, item.value.data);
    }

    /** All items that meet range, as get_all lists them, provided range reaches the root bounds. */
    method QueryRange(range: MBR, result: QTQueryResult<D>)
      requires Valid()
      modifies result
      ensures result.items == if Intersects(root.bounds, range) then Filter(Stored(), Meets(range)) else []
      ensures (forall x | x in Stored() :: ContainsMBR(root.bounds, x.bounds)) ==>
                result.items == Filter(Stored(), Meets(range))
    {
      hide Placed, All, Filter, QTNode.Valid, Intersects, ContainsMBR;
      RangeIsScan(root.model, range, nodeCapacity, maxDepth);
      if forall x | x in Stored() :: ContainsMBR(root.bounds, x.bounds) {
        QueriesExact(root.model, range, Point(0.0, 0.0), nodeCapacity, maxDepth);
      }
      result.Clear();
      QueryRangeNode(root, range, result);
    }

    method QueryPoint(p: Point, result: QTQueryResult<D>)
      requires Valid()
      modifies result
      ensures result.items == if ContainsPoint(root.bounds, p) then Filter(Stored(), Covers(p)) else []
      ensures (forall x | x in Stored() :: ContainsMBR(root.bounds, x.bounds)) ==>
                result.items == Filter(Stored(), Covers(p))
    {
      hide Placed, All, Filter, QTNode.Valid, ContainsPoint, ContainsMBR;
      PointIsScan(root.model, p, nodeCapacity, maxDepth);
      if forall x | x in Stored() :: ContainsMBR(root.bounds, x.bounds) {
        QueriesExact(root.model, root.bounds, p, nodeCapacity, maxDepth);
      }
      result.Clear();
      QueryPointNode(root, p, result);
    }

    /** All items within EPSILON of region on both axes. */
    method FindAdjacentToRegion(region: MBR, result: QTQueryResult<D>)
      requires Valid()
      modifies result
      ensures result.items == AdjacentIn(Model(), region)
      ensures !IsEmpty(region) && (forall x | x in Stored() :: ContainsMBR(root.bounds, x.bounds)) ==>
                result.items == Filter(Stored(), AdjacentTo(region))
    {
      hide Placed, All, Filter, QTNode.Valid, Adjacent, ContainsMBR, IsEmpty, RangeIn;
      if !IsEmpty(region) && (forall x | x in Stored() :: ContainsMBR(root.bounds, x.bounds)) {
        AdjacencyExact(root.model, region, nodeCapacity, maxDepth);
      }
      result.Clear();
      var found := new QTQueryResult<D>();
      var dx, dy := (region.maxX - region.minX) * 0.01, (region.maxY - region.minY) * 0.01;
      if dx < 0.000001 { dx := 0.000001; }
      if dy < 0.000001 { dy := 0.000001; }
      var expanded := MBR(region.minX - dx, region.minY - dy, region.maxX + dx, region.maxY + dy);
      assert expanded == Widened(region);
      QueryRangeNode(root, expanded, found);
      assert found.items == RangeIn(root.model, Widened(region));
      AddAdjacent(found.items, region, result);
    }

    /** The adjacency query around the first item with this id. */
    method FindAdjacent(id: nat, result: QTQueryResult<D>) returns (status: Status)
      requires Valid()
      modifies result
      ensures var i := IndexOf(Stored(), id);
        if i < |Stored()| then status == OK && result.items == AdjacentIn(Model(), Stored()[i].bounds)
        else status == ErrNotFound && result.items == old(result.items)
    {
      hide Placed, All, QTNode.Valid, AdjacentIn, IndexOf, FindIn;
      FindIsFirst(root.model, id);
      var item := FindNode(root, id);
      if item.None? { return ErrNotFound; }
      FindAdjacentToRegion(item.value.bounds, result);
      return OK;
    }

    method Get(id: nat) returns (found: Option<Item<D>>)
      requires Valid()
      ensures var i := IndexOf(Stored(), id);
        found == if i < |Stored()| then Some(Stored()[i]) else None
    {
      hide Placed, All, QTNode.Valid, IndexOf, FindIn;
      FindIsFirst(root.model, id);
      found := FindNode(root, id);
    }

    method GetAll(result: QTQueryResult<D>)
      requires Valid()
      modifies result
      ensures result.items == Stored()
    {
      hide Placed, All, QTNode.Valid;
      result.Clear();
      CollectAllNode(root, result);
    }
  }

  method AddAdjacent<D>(items: seq<Item<D>>, region: MBR, result: QTQueryResult<D>)
    modifies result
    ensures result.items == old(result.items) + Filter(items, AdjacentTo(region))
  {
    hide Adjacent, Filter;
    FilterNone<Item<D>>([], AdjacentTo(region));
    for i := 0 to |items|
      invariant result.items == old(result.items) + Filter(items[..i], AdjacentTo(region))
    {
      FilterPrefix(items, i, AdjacentTo(region));
      if Adjacent(items[i].bounds, region) {
        result.Add(items[i]);
      }
    }
    assert items[..|items|] == items;
  }

  lemma MeetsIsNonEmpty(a: MBR, b: MBR)
    ensures Intersects(a, b) ==> !IsEmpty(b)
  {
  }

  lemma LedgerSums<T>(stored: multiset<T>, dropped: multiset<T>, lost: multiset<T>, before: multiset<T>, x: multiset<T>)
    requires stored + lost == before + x
    ensures stored + (dropped + lost) == before + dropped + x
  {
    assert stored + (dropped + lost) == (stored + lost) + dropped;
    assert before + dropped + x == (before + x) + dropped;
  }
}
