# Urbis spatial engine: a Dafny model

Urbis keeps two-dimensional objects (points, linestrings, polygons) in 64-slot pages, groups the
pages into tracks, and answers range, point, nearest-neighbour and adjacency queries through a
KD-tree, a quadtree and page extents.  This project models the in-memory engine and proves what its
operations keep and return.

| file | module | follows |
|---|---|---|
| `Geometry.dfy` | `Geometry` | points and rectangles of `src/geometry.c` |
| `Shapes.dfy` | `Shapes` | ring and linestring arithmetic of `src/geometry.c` |
| `SpatialObjects.dfy` | `SpatialObjects` | spatial objects, and a store of them as a map from id to object |
| `KDSpec.dfy`, `KDTree.dfy` | `KDSpec`, `KDTrees` | `src/kdtree.c`: trees as values with their laws; heap nodes updated in place |
| `QuadSpec.dfy`, `QuadTree.dfy` | `QuadSpec`, `QuadTrees` | `src/quadtree.c`, in the same two layers |
| `Pages.dfy`, `PageCodec.dfy` | `Pages`, `PageCodec` | pages, tracks, the page pool and the page bytes of `src/page.c` |
| `CacheSpec.dfy`, `PageCache.dfy` | `CacheSpec`, `PageCaches` | the LRU page cache of `src/page.c` |
| `DiskManager.dfy` | `DiskManagers` | page allocation of `src/disk_manager.c` |
| `SpatialIndex.dfy` | `SpatialIndexes` | `src/spatial_index.c` |
| `Json.dfy`, `JsonParser.dfy` | `Json`, `JsonParser` | the JSON reader of `src/parser.c`: a grammar, and the parser that follows it |
| `JsonDocs.dfy` | `JsonDocs` | documents laid out as text with any spaces, as an independent account of what that reader accepts |
| `GeoJson.dfy` | `GeoJson` | GeoJSON reading and writing of `src/parser.c` |
| `Seqs.dfy` | `Seqs` | facts about sequences |

Code that works in place is a class or an array method, proved against a function of the old state;
the laws are then lemmas about those functions.  A double is a `real`, ids and counters are
unbounded naturals, allocation succeeds, arrays grow, and `sqrt` is any function that never returns
a negative number.  `DBL_MAX` is the real number of that value: empty rectangles and the first best
distance of a search use it as the code does, so the results that need it say which points must lie
within it or which distances must stay below it.

## What the code does differently from its documentation

* A KD-tree is documented as having points strictly less than the split on the left
  (`include/kdtree.h:34`).  Insertion keeps that (`KDSpec.InsertKeepsStrict`); a bulk load of two points
  with one x does not have it (`KDSpec.BuiltWithTie`).  A median build has it at every step whose sorted
  run rises into the median, and at no other (`KDSpec.BuildStepStrictIff`), so always when no two points
  share a coordinate (`KDSpec.BuiltIsStrict`).  The invariant used is `left <= split <= right`.
* A quadtree split drops the items that fit no quadrant.  `QuadSpec.InsertDropsNothing` says exactly
  when an insert loses nothing, and `QuadSpec.InsertCanDrop` is an insert that loses a stored item.
* Blocks leave out the points of the nodes above them.  `KDSpec.PartitionComplete` counts entries: the
  subtrees of the blocks hold all of them if and only if the root is a block.  The rectangles contain every
  point under the same condition when no other point lies on the root's splitting line
  (`KDSpec.BlocksCoverIff`); with such a tie they can do so without it (`KDSpec.TiedBlocksCover`).
* Each page is listed twice by its track, so a track has room for 8 pages, not 16
  (`Pages.PagesListedTwice`).
* `PageRef.next` is the hash chain and the recency link at once, so ids that share a bucket can be
  cached twice (`CacheSpec.CollisionDuplicates`).  `CacheSpec.GetIsLRUIff` and `CacheSpec.RunIsLRUIff`
  say exactly when a get, and a run of gets, follows the LRU policy.
* Eviction does not skip a pinned page but starts over with it.  The loop ends if and only if none of
  the pages it has to evict is pinned (`CacheSpec.EvictionEndsIff`).
* Building an index without objects leaves the old block tree behind: after a build the tree is current
  if and only if there are objects or it was empty before (`SpatialIndexes.SpatialIndex.Build`).
  `SpatialIndexes.BuildAfterRemoval` reaches a built index whose tree is not.
* An object may bring its own id, which is not checked: on a new index one with id 1, then one without
  an id, both get id 1 (`SpatialObjects.OwnIdCollides`).  `SpatialObjects.RunRefinesMap` says that ids stay
  unique if and only if no insert meets an id in use.
* After a ring that is no array, later rings lose their points.  `GeoJson.HolesExactIff` says exactly
  when no hole is damaged.
* The export of a line or a ring stops after the point that reaches the end of the buffer, and then writes
  the closing brackets behind that point.  They start inside the buffer or at its end if and only if all
  before them fits or the buffer ends with the opening or with a point (`GeoJson.ClosingInsideIff`).  When
  the buffer ends inside the first point they do not (`GeoJson.LoopEndsOutside`).
* A string literal with an escape is cut short; `Json.StringRightIff` says exactly when it is not.
* The page header takes 72 bytes, not the 64 of `include/page.h:28`.

## Model

| member | source | states |
|---|---|---|
| Geometry.IntersectsMeansSharedPoint | src/geometry.c:434-440 | two rectangles intersect if and only if they have a point in common |
| Geometry.ContainsMeansSubset | src/geometry.c:450-456 | one rectangle contains another if and only if the other is non-empty and all its points are inside |
| Geometry.IntersectionMeansCommonPoints | src/geometry.c:472-484 | the intersection holds exactly the common points |
| Geometry.UnionIsLeastUpperBound | src/geometry.c:486-501 | the union is contained in exactly the rectangles that contain those of its arguments that are not empty, and expanding in place gives the same rectangle |
| Geometry.DistSqIsEuclidean | src/geometry.c:28-33 | squared distance is kept by every shift and turn of the plane and is the squared difference along the x axis |
| Geometry.CenterIsMiddle | src/geometry.c:458-465 | the centre of a rectangle lies in it, equally far from opposite edges |
| Geometry.AreaIsProduct | src/geometry.c:467-470 | the area of a rectangle given by corner and sides is the product of the sides |
| Geometry.LargestDouble | src/geometry.c:401-409 | the bound of an empty rectangle is 2^971 times (2^53 - 1) |
| Shapes.RingSignedArea | src/geometry.c:268-278 | the loop computes the shoelace sum over the closed ring, 0 below three points |
| Shapes.RingCentroidOf | src/geometry.c:283-312 | the loops compute the moment quotient, or the vertex mean of a degenerate ring |
| Shapes.AreaIsTranslationInvariant | src/geometry.c:268-278 | moving a ring keeps its signed area |
| Shapes.AreaNegatesOnReversal | src/geometry.c:268-278 | reversing a ring negates its signed area |
| Shapes.TriangleArea | src/geometry.c:268-278 | the signed area of a triangle is half the cross product of two sides |
| Shapes.AreaAdds | src/geometry.c:268-278 | the signed areas of the two parts of a ring cut along a diagonal add up to its own |
| Shapes.CentroidIsTranslationEquivariant | src/geometry.c:283-330 | moving a ring of at least three points moves its centroid by the same amount, on either branch |
| Shapes.CentroidIgnoresOrientation | src/geometry.c:283-330 | reversing a ring of at least three points keeps its centroid |
| Shapes.TriangleCentroid | src/geometry.c:283-312 | the centroid of a triangle with area is the mean of its corners |
| Shapes.CentroidAdds | src/geometry.c:283-312 | signed area times centroid adds up over the two parts of a ring cut along a diagonal, when ring and parts have area |
| Shapes.FlatCentroid | src/geometry.c:288-297 | a ring of area below 1e-10 has the mean of its vertices as centroid |
| Shapes.LinestringCentroid | src/geometry.c:87-126 | the loop computes the length-weighted mean of segment midpoints, with the empty, one-point and zero-length cases |
| Shapes.SegmentCentroid | src/geometry.c:87-126 | a segment is as long as its ends are apart and has its centroid at its midpoint |
| Shapes.ShortLineCentroid | src/geometry.c:92-121 | a line shorter than 1e-10 has its centroid at its first point; no points have none |
| Shapes.LineCentroidAdds | src/geometry.c:87-126 | length times centroid adds up over the two parts of a line cut at a vertex |
| Shapes.LineCentroidInside | src/geometry.c:87-138 | the centroid of every non-empty linestring lies inside its rectangle |
| Shapes.PointsMBR | src/geometry.c:128-138 | the loop computes the hull of the points; no points are an error |
| Shapes.HullContains | src/geometry.c:128-138 | the hull contains every point |
| Shapes.HullIsLeast | src/geometry.c:128-138 | every rectangle that contains all the (finite) points contains the hull |
| SpatialObjects.UpdateDerived | src/geometry.c:571-597 | the rectangle contains every vertex, the centroid is that of the point, line or exterior ring, id and geometry stay; an empty line and a polygon of fewer than three points are told apart as errors and left as they were |
| SpatialObjects.DerivedBox | src/geometry.c:571-597 | the derived rectangle of a point, a line or a polygon contains each of its vertices |
| SpatialObjects.DerivedBoxIsLeast | src/geometry.c:571-597 | it lies in every rectangle that contains them all, when they are finite |
| SpatialObjects.DerivedCentroidInside | src/geometry.c:571-597 | points and non-empty linestrings get a centroid inside their rectangle |
| SpatialObjects.ExtentContains | src/page.c:109-110 | the extent of a group of objects contains each non-empty rectangle |
| SpatialObjects.ExtentIsLeast | src/page.c:157-175 | the extent lies in every rectangle that contains all of them |
| SpatialObjects.MeanCentroidInside | src/page.c:157-175 | when objects have their centroids in their rectangles, the group's centroid lies in its extent |
| SpatialObjects.CentroidSumsJoin | src/page.c:157-175 | the centroid of a group times its size is the sum of the centroids, each counted once |
| SpatialObjects.ContentsIsLookup | src/spatial_index.c:473-482 | scanning for an id and looking it up in the map give the same object, or none |
| SpatialObjects.StepRefinesMap | src/spatial_index.c:206-273 | an insert, remove or update keeps ids unique if and only if it stores nothing under an id in use, and is then the same operation on the map from id to object |
| SpatialObjects.RunRefinesMap | src/spatial_index.c:206-273 | over every run on an empty index ids are unique all along if and only if no insert meets an id in use, and the stored objects are then exactly the abstract map |
| SpatialObjects.HandedOutIds | src/spatial_index.c:209-212 | when no object brings an id, no insert ever meets one in use |
| SpatialObjects.OwnIdCollides | src/spatial_index.c:209-212 | an object that brings id 1 and then one without an id: the second meets an id in use |
| KDSpec.InsertAddsOne | src/kdtree.c:76-97 | insertion adds exactly the new entry to the stored multiset |
| KDSpec.InsertKeepsWellFormed | src/kdtree.c:76-97 | insertion keeps the ordering, the tight bounds, the subtree sizes and the alternation of dimensions |
| KDSpec.BuildStep | src/kdtree.c:43-71 | a sorted run split at its median, with both sides built, gives a built tree of exactly these entries |
| KDSpec.BuiltIsWellFormed | src/kdtree.c:43-71 | a built tree is ordered, with tight bounds and exact sizes |
| KDSpec.SidesByDepth | src/kdtree.c:43-71 | a well-formed tree splits by x at even depths and by y at odd ones |
| KDSpec.BuildStepStrictIff | include/kdtree.h:34-35 | a median step puts only smaller points on the left if and only if the sorted run rises into the median |
| KDSpec.BuiltIsStrict | include/kdtree.h:34-35 | a bulk load of points without ties is strict on the left, as documented |
| KDSpec.InsertKeepsStrict | include/kdtree.h:34-35 | insertion keeps any tree strict on the left |
| KDSpec.BuiltWithTie | src/kdtree.c:43-71 | a bulk load of two points with one x that is not strict on the left |
| KDSpec.HalvedHeight | src/kdtree.c:43-71 | a median-built tree of n >= 1 points has a height h with 2^(h-1) <= n < 2^h |
| KDSpec.HeightIsLongestWay | src/kdtree.c:166-171 | the height is the number of nodes on a longest way down from the root |
| KDSpec.HalvedHeightIsOptimal | src/kdtree.c:437-445 | that height is the optimum the balance check compares with |
| KDSpec.FarSide | src/kdtree.c:125-140 | points beyond the splitting line are no closer than the line |
| KDSpec.NearestIsMinimum | src/kdtree.c:113-141 | the pruned search gives the running best or an entry closer than it, and nothing stored is closer |
| KDSpec.NearestEntryIsNearest | src/kdtree.c:263-283 | the answer is stored and at least as close as every stored point (or all are DBL_MAX away); no answer means an empty tree |
| KDSpec.RangeIsScan | src/kdtree.c:146-161 | the pruned range search lists exactly the entries inside the range, each as often as stored |
| KDSpec.ScansMean | src/kdtree.c:146-161 | what the scans keep, in coordinates: the points between the edges, edges included, and those within the radius |
| KDSpec.WholeRange | src/kdtree.c:298-299 | querying the bounds of the whole tree returns every entry |
| KDSpec.RadiusIsScan | src/kdtree.c:354-385 | box query plus distance filter is the scan by distance, for radius >= 0, and nothing for a negative radius |
| KDSpec.KNearestFromPrefix | src/kdtree.c:319-334 | the first k places of a partially sorted rearrangement are the k nearest: sorted, from the store, nothing omitted strictly closer |
| KDSpec.KNearestDistancesUnique | src/kdtree.c:285-340 | any two answers to a k-nearest query have the same distances |
| KDSpec.PartitionAccounts | src/kdtree.c:176-195 | the blocks' entries and the entries passed through make up the stored multiset |
| KDSpec.BlockIsTight | src/kdtree.c:176-195 | each block is the tight rectangle of at most max(1, max) entries |
| KDSpec.BlocksDisjoint | src/kdtree.c:176-195 | the interiors of different blocks are disjoint |
| KDSpec.PartitionComplete | src/kdtree.c:176-195 | the subtrees that become blocks hold every entry if and only if the root itself is a block |
| KDSpec.BlocksCoverIff | src/kdtree.c:176-195 | with no other point on the root's splitting line, the rectangles of the blocks contain every stored point if and only if the root itself is a block |
| KDSpec.TieFreeIsLineFree | src/kdtree.c:176-195 | that is so of every tree whose points share no coordinate |
| KDSpec.SingleBlockCovers | src/kdtree.c:184-190 | a root that is a block contains every stored point, with ties or without |
| KDSpec.TiedBlocksCover | src/kdtree.c:176-195 | a built tree of four points with one x whose two blocks contain them all |
| KDSpec.PartitionMissesAPoint | src/kdtree.c:192-195 | a built tree of three points whose blocks do not contain one of them |
| KDTrees.KDNode.UpdateBounds | src/kdtree.c:547-560 | bounds and size are recomputed from the children and nothing else changes |
| KDTrees.BuildTreeRecursive | src/kdtree.c:43-71 | sorting, taking the median and building both sides in place gives a built tree of exactly the run, which is only permuted |
| KDTrees.InsertRecursive | src/kdtree.c:76-97 | updating nodes in place gives the inserted tree, at the same root node |
| KDTrees.NearestRecursive | src/kdtree.c:113-141 | mutating the search state gives the recursive search on the tree's value |
| KDTrees.RangeQueryRecursive | src/kdtree.c:146-161 | appends the hits of the subtree to the result |
| KDTrees.CollectLeafBounds | src/kdtree.c:176-195 | appends the rectangles of the blocks in order |
| KDTrees.FindMin | src/kdtree.c:320-325 | finds a position of the least remaining distance |
| KDTrees.SelectNearest | src/kdtree.c:313-334 | the in-place partial selection sort appends the k nearest |
| KDTrees.KDTree.Insert | src/kdtree.c:219-229 | adds exactly the entry and keeps the tree valid |
| KDTrees.KDTree.BulkLoad | src/kdtree.c:231-261 | replaces the tree by a built tree of exactly the points; no points leave it alone |
| KDTrees.KDTree.Nearest | src/kdtree.c:263-283 | a nearest stored entry, or nothing exactly for an empty tree |
| KDTrees.KDTree.KNearestQuery | src/kdtree.c:285-340 | the k nearest stored entries when coordinates are finite; an empty tree is an error, k = 0 changes nothing |
| KDTrees.KDTree.RangeQuery | src/kdtree.c:342-352 | exactly the stored entries in the range, in traversal order |
| KDTrees.KDTree.RadiusQuery | src/kdtree.c:354-385 | exactly the stored entries within the radius |
| KDTrees.KDTree.Partition | src/kdtree.c:413-430 | the rectangles of the blocks in order, each the bounds of its block |
| KDTrees.KDTree.IsBalanced | src/kdtree.c:437-445 | compares the height with twice the optimum, and is always true of a bulk-loaded tree |
| QuadSpec.SplitDropsStraddlers | src/quadtree.c:32-96 | a split drops exactly the items that fit no quadrant |
| QuadSpec.QuadrantSides | src/quadtree.c:32-53 | which sides of the two centre lines each of the four quadrants takes, for a rectangle inside the node, written out from the edges |
| QuadSpec.StraddlesMeansCrosses | src/quadtree.c:32-96 | a rectangle inside the node fits no quadrant if and only if it crosses one of its centre lines |
| QuadSpec.SplitDropsCrossers | src/quadtree.c:32-96 | of the items inside the node a split drops exactly those that cross one of its centre lines |
| QuadSpec.SplitSorts | src/quadtree.c:32-96 | a split gives every other item to its first fitting quadrant, in order, and overflows no child |
| QuadSpec.SplitAccounts | src/quadtree.c:32-96 | what a split keeps and what it drops is what the node held |
| QuadSpec.InsertAccounts | src/quadtree.c:101-152 | what an insert stores plus what it drops is what was stored plus the item |
| QuadSpec.LeafInsert | src/quadtree.c:111-131 | a leaf with room, or at the depth limit, appends the item; any other leaf is split |
| QuadSpec.InsertKeepsPlaced | src/quadtree.c:101-152 | insertion keeps items inside their nodes, items of internal nodes out of every child, depth and leaf sizes within limits |
| QuadSpec.InsertStoresNew | src/quadtree.c:101-152 | the inserted item itself is stored |
| QuadSpec.InsertLedger | src/quadtree.c:341-358 | insertion into a placed tree leaves a placed tree that stores the item and otherwise only what it stored, and stored plus lost items grow by exactly the item |
| QuadSpec.InsertDropsNothing | src/quadtree.c:101-152 | an insert drops nothing if and only if the node it reaches need not split, or no split on the way meets an item across its quadrants |
| QuadSpec.InsertCanDrop | src/quadtree.c:82-93 | an insert after which a stored item is gone |
| QuadSpec.RangeIsScan | src/quadtree.c:157-177 | the pruned range search is the scan of all items, when the range reaches the root |
| QuadSpec.PointIsScan | src/quadtree.c:182-201 | the pruned point search is the scan of all items, when the point is in the root |
| QuadSpec.HitsMean | src/quadtree.c:155-199 | which items the two scans keep, in coordinates: touching counts |
| QuadSpec.QueriesExact | src/quadtree.c:157-201 | for items inside the root rectangle both queries are exactly the scan |
| QuadSpec.FindIsFirst | src/quadtree.c:206-225 | finding an id gives the first such item in get-all order |
| QuadSpec.RemoveIsFirst | src/quadtree.c:230-254 | removing an id takes out exactly that item |
| QuadSpec.RemoveKeepsPlaced | src/quadtree.c:230-254 | removal keeps the placement invariant |
| QuadSpec.AdjacencyIsScan | src/quadtree.c:399-432 | the widened query loses nothing the adjacency test would keep |
| QuadSpec.AdjacentMeans | src/quadtree.c:20-27 | rectangles are adjacent if and only if they are at most 1e-9 apart on both axes, so whenever they meet |
| QuadSpec.AdjacencyExact | src/quadtree.c:399-432 | for a non-empty region and items inside the root, adjacency is exactly the scan by distance 1e-9 on both axes |
| QuadTrees.SplitNode | src/quadtree.c:32-96 | the in-place split gives the split node with four fresh children |
| QuadTrees.InsertNode | src/quadtree.c:101-152 | the in-place insert gives the inserted tree and ends by the measure (levels left, leaf); an item off the node is refused |
| QuadTrees.RemoveNode | src/quadtree.c:230-254 | the in-place removal gives the removed tree, or reports that nothing had the id |
| QuadTrees.QueryRangeNode | src/quadtree.c:157-177 | appends the hits of the subtree |
| QuadTrees.QueryPointNode | src/quadtree.c:182-201 | appends the hits of the subtree |
| QuadTrees.FindNode | src/quadtree.c:206-225 | finds what the tree's value finds |
| QuadTrees.QuadTree.constructor | src/quadtree.c:299-322 | an empty valid tree, with the default capacity and depth for values that are not positive |
| QuadTrees.QuadTree.InsertWithCentroid | src/quadtree.c:341-358 | stores the item if it meets the root rectangle; stored and dropped items together grow by exactly it, and the item count is stored plus dropped |
| QuadTrees.QuadTree.Remove | src/quadtree.c:360-369 | takes out the first item with the id and counts it off |
| QuadTrees.QuadTree.Update | src/quadtree.c:472-486 | moves the first item with the id; if the new rectangle misses the root it is gone |
| QuadTrees.QuadTree.QueryRange | src/quadtree.c:371-378 | the scan by intersection, exact for items inside the root |
| QuadTrees.QuadTree.QueryPoint | src/quadtree.c:380-387 | the scan by containment, exact for items inside the root |
| QuadTrees.QuadTree.FindAdjacentToRegion | src/quadtree.c:399-432 | the scan by adjacency, exact for a non-empty region and items inside the root |
| QuadTrees.QuadTree.FindAdjacent | src/quadtree.c:389-397 | adjacency around the first item with the id |
| QuadTrees.QuadTree.Get | src/quadtree.c:462-470 | the first item with the id |
| QuadTrees.QuadTree.GetAll | src/quadtree.c:488-495 | every stored item |
| Pages.Page.AddObject | src/page.c:94-117 | appends the object and grows the extent, or reports a page of 64 objects as full and changes nothing |
| Pages.Page.RemoveObject | src/page.c:119-143 | takes out the first object with the id and leaves extent and centroid describing the rest |
| Pages.Page.FindObject | src/page.c:145-155 | the first object with the id |
| Pages.Page.UpdateDerived | src/page.c:157-176 | the extent is the union of the objects' rectangles, the centroid of a non-empty page their mean |
| Pages.DiskTrack.AddPage | src/page.c:323-340 | lists the page, takes it over and raises the full flag at 16 entries; a full track refuses |
| Pages.DiskTrack.UpdateDerived | src/page.c:374-396 | the extent is the union over the entries, the centroid the mean over entries with an extent |
| Pages.JointExtentIsLeast | src/page.c:374-395 | the extent of a track contains the extent of each entry that has one and lies in every rectangle that contains them all (finite corners) |
| Pages.TallyJoins | src/page.c:374-395 | the centroid of a track sums the centroids of the entries with an extent, each counted once |
| Pages.PagePool.Alloc | src/page.c:460-487 | a new page under the next id, listed once by the named track if that has room |
| Pages.PagePool.Get | src/page.c:518-528 | the page with the id, or none |
| Pages.PagePool.GetTrack | src/page.c:551-561 | the track with the id, or none |
| Pages.PagePool.CreateTrack | src/page.c:530-549 | a new empty track under the next id, with the pool still valid |
| Pages.PagePool.QueryRegion | src/page.c:563-594 | the two passes collect exactly the pages whose extent meets the region |
| Pages.PagesMeetingExactly | src/page.c:563-595 | a page is found as often as it is in the pool if its extent shares a point with the region, and not at all otherwise |
| Pages.PagePool.ObjectCount | src/page.c:603-608 | the number of all objects |
| Pages.TwoLevelIsScan | src/page.c:563-594 | objects meeting a region found through the pages meeting it are all the objects meeting it |
| Pages.PagesListedTwice | src/disk_manager.c:372-403 | every pool page is listed exactly twice by the track its header names and by no other; a track has at most 16 entries and 8 pages and is full exactly at 8 |
| Pages.IdsUnique | src/page.c:460-549 | page and track ids are unique and below their counters |
| CacheSpec.GotKeeps | src/page.c:645-707 | every get keeps the list free of repeats, within capacity, and every bucket pointing into it |
| CacheSpec.RunKeeps | src/page.c:645-707 | so does every run of gets, of pages in the pool or not |
| CacheSpec.GetIsLRUIff | src/page.c:645-707 | on a cache without repeated ids a get is one step of the LRU policy if and only if the lookup finds the cached id, or misses it where that does no harm |
| CacheSpec.IndexedGetIsLRU | src/page.c:645-707 | when every entry is its bucket's entry, a get is one step of the LRU policy |
| CacheSpec.GotIndexedIff | src/page.c:645-707 | a get keeps that if and only if no two ids it leaves cached share a bucket |
| CacheSpec.RunIsLRUIff | src/page.c:645-707 | the list is the LRU order all along a run if and only if every get follows the policy |
| CacheSpec.RunIsLRU | src/page.c:645-707 | so it is in every run in which, at each time, no two ids the policy caches share a bucket |
| CacheSpec.PolicyIsLeastRecentlyUsed | src/page.c:645-707 | what the policy keeps after any requests are the pages fetched last, latest first, and an absent one was used before all that are kept |
| CacheSpec.CollisionDuplicates | src/page.c:693-698 | two ids in one bucket: getting a, b, a, a caches a twice |
| CacheSpec.EvictionEndsIff | src/page.c:753-791 | some number of iterations ends the eviction loop if and only if none of the entries it has yet to evict is pinned |
| PageCaches.PageCache.constructor | src/page.c:615-628 | an empty cache of the given capacity, 64 for none, with twice as many buckets |
| PageCaches.PageCache.Unlink | src/page.c:655-660 | rewiring the neighbours and the ends gives a doubly linked list without the entry |
| PageCaches.PageCache.PushFront | src/page.c:697-702 | rewiring the head gives a doubly linked list with the entry in front |
| PageCaches.PageCache.Lookup | src/page.c:648-674 | walking the chain from the bucket finds the first entry of the id from there on |
| PageCaches.PageCache.EvictOne | src/page.c:758-788 | drops the last list element, and its bucket if the bucket points to it |
| PageCaches.PageCache.EvictEndsIff | src/page.c:753-791 | that is so exactly when what Evict requires holds |
| PageCaches.PageCache.Evict | src/page.c:753-791 | drops the given number of least recent entries |
| PageCaches.PageCache.Get | src/page.c:645-707 | answers what the pool answers and makes one step of the cache specification, with the list still well linked |
| PageCaches.PageCache.IsBlocked | src/page.c:645-707 | tells whether a get would have to evict a pinned page |
| PageCaches.GetAll | src/page.c:645-707 | gets on a new cache, over any pool, answer what the pool answers and are a run of the specification, up to the first get that has to evict a pinned page |
| PageCodec.ValueOfBytes | src/page.c:203-217 | a word written as bytes reads back as the word |
| PageCodec.WordBytes | src/page.c:203-217 | the bytes of a word, the lowest first |
| PageCodec.HeaderLayout | include/page.h:48-56 | at which offset of the image each field of the header is |
| PageCodec.RecordLayout | src/page.c:200-217 | at which offset of a record each field of the object is |
| PageCodec.PageLayout | src/page.c:187-224 | the header comes first, then record i at 72 + 60 i |
| PageCodec.PageRoundTrip | src/page.c:187-264 | the image of any page reads back as its header and its objects in order, whatever follows |
| PageCodec.PageReread | src/page.c:226-264 | writing what was read from any bytes gives back those bytes |
| PageCodec.ImagesDiffer | src/page.c:187-224 | pages with the same number of objects and the same image are the same |
| PageCodec.ImageFits | src/page.c:187-224 | the image of up to 64 objects ends at 3912 or before, inside 4096 bytes |
| PageCodec.WriteRecord | src/page.c:203-217 | the four copies at a moving offset write one record |
| PageCodec.Serialize | src/page.c:187-224 | the buffer holds the image and then zeros; a short buffer is refused unchanged |
| PageCodec.Deserialize | src/page.c:226-264 | header and objects are those of the bytes; a short buffer or a count above 64 is corrupt and leaves the objects alone |
| PageCodec.WriteThenRead | src/page.c:187-264 | writing a page and reading the buffer restores it |
| DiskManagers.DiskManager.FindBestTrack | src/disk_manager.c:457-514 | the first cheapest track with room under the strategy, if one costs less than DBL_MAX |
| DiskManagers.ExpansionIsGrowth | src/disk_manager.c:488-491 | the expansion compared is the area of the rectangle around extent and point minus that of the extent, never negative, and 0 for a point inside |
| DiskManagers.BestFitGrowsMin | src/disk_manager.c:479-500 | under the best fit no track with room whose extent is not empty grows by less area than the chosen one, areas written out; one that contains the point is passed over only for one that does not grow |
| DiskManagers.BestFitIsFirst | src/disk_manager.c:479-500 | of tracks with room that grow equally the first is chosen |
| DiskManagers.NearestTrackIsNearest | src/disk_manager.c:461-477 | under the nearest track no track with room is closer by its centroid than the chosen one |
| DiskManagers.DiskManager.PlacePage | src/disk_manager.c:384-391 | adding the page in the pool and again here keeps every page listed exactly twice by its own track |
| DiskManagers.DiskManager.AllocPage | src/disk_manager.c:372-403 | a new empty page at the point, at the end of the chosen track or of a new one, also in the allocation tree and within the bounds |
| DiskManagers.DiskManager.UpdateAllocationTree | src/disk_manager.c:144-150 | the tree gains exactly the page at its centroid |
| DiskManagers.DiskManager.RebuildAllocationTree | src/disk_manager.c:566-583 | afterwards the tree holds exactly the non-empty pages at their current centroids |
| DiskManagers.DiskManager.CreateTrack | src/disk_manager.c:589-599 | one more empty track, and the pool still valid |
| DiskManagers.ListingMembers | src/disk_manager.c:574-579 | an entry is listed if and only if it is a non-empty page with its own centroid and id |
| SpatialIndexes.SpatialIndex.constructor | src/spatial_index.c:141-182 | an empty valid index, all of it new, that allocates by best fit |
| SpatialIndexes.SpatialIndex.NearestWithRoom | src/spatial_index.c:39-48 | a page with room at minimum centroid distance among non-empty pages, or the fact that a nearest one is full or there is none |
| SpatialIndexes.SpatialIndex.GetPageForInsert | src/spatial_index.c:33-52 | that page, or a fresh one exactly when there is none |
| SpatialIndexes.SpatialIndex.StoreInPage | src/spatial_index.c:221-233 | the object is inserted once into the sequence of all objects and the page is up to date |
| SpatialIndexes.SpatialIndex.Place | src/spatial_index.c:217-242 | the object goes into a nearest or fresh page, tree and bounds follow, the index stays valid |
| SpatialIndexes.SpatialIndex.Prepare | src/spatial_index.c:209-215 | the object gets a new id if it had none, and its centroid and rectangle |
| SpatialIndexes.SpatialIndex.Insert | src/spatial_index.c:206-245 | the derived object is stored once, in the page the rule chooses; no other page changes; it is one step of the keyed store |
| SpatialIndexes.SpatialIndex.FindPageForObject | src/spatial_index.c:20-28 | the first page that holds the id |
| SpatialIndexes.SpatialIndex.Remove | src/spatial_index.c:258-273 | exactly the first object with the id is gone, or nothing changed and it was not there |
| SpatialIndexes.SpatialIndex.Update | src/spatial_index.c:484-501 | the first object with the id is taken out and the derived new one stored once; it is one step of the keyed store |
| SpatialIndexes.SpatialIndex.Get | src/spatial_index.c:473-482 | the first object with the id |
| SpatialIndexes.SpatialIndex.QueryRange | src/spatial_index.c:345-372 | exactly the stored objects whose rectangle meets the range, in storage order |
| SpatialIndexes.VertexIsFound | src/spatial_index.c:345-372 | a range that contains a vertex of a stored point, line or polygon has the object in its answer |
| SpatialIndexes.MeetsMeans | src/spatial_index.c:345-372 | which objects the query keeps, in coordinates: touching counts |
| SpatialIndexes.SpatialIndex.QueryPoint | src/spatial_index.c:374-382 | exactly the stored objects whose rectangle contains the point |
| SpatialIndexes.SpatialIndex.CollectPoints | src/spatial_index.c:287-300 | one entry for each object, at its centroid |
| SpatialIndexes.SpatialIndex.CreateBlocks | src/spatial_index.c:318-332 | one block for each rectangle, with consecutive new ids and a new track each |
| SpatialIndexes.SpatialIndex.BuildPageQuadtree | src/spatial_index.c:83-111 | a fresh quadtree whose stored and dropped items are the non-empty pages that meet the index bounds |
| SpatialIndexes.SpatialIndex.Build | src/spatial_index.c:275-343 | the block tree is a built tree of exactly the stored objects and the blocks are its partition; without objects only the flag changes, and the tree is current if and only if it was empty |
| SpatialIndexes.SpatialIndex.QueryKnn | src/spatial_index.c:384-412 | what the slots of the k nearest entries of the block tree hold; an empty tree is an error, k = 0 leaves the result |
| SpatialIndexes.CurrentSlots | src/spatial_index.c:384-412 | while the block tree is current those are the objects of the k nearest entries, and it is empty exactly without objects |
| SpatialIndexes.SpatialIndex.FindAdjacentPages | src/spatial_index.c:414-471 | the pages the quadtree finds adjacent and their track ids, the quadtree being built of the pages on first use |
| SpatialIndexes.AdjacentPagesExact | src/spatial_index.c:414-471 | on a quadtree of the pages as they are, the pages found and the adjacent ones its splits dropped are exactly the pages with an extent within 1e-9 of the region |
| SpatialIndexes.SpatialIndex.GetBlock | src/spatial_index.c:507-517 | the first block containing the point, or none does |
| SpatialIndexes.KnnMeaning | src/spatial_index.c:384-412 | those are min(k, n) objects with distinct ids in nondecreasing distance, and no omitted object is closer than a returned one |
| SpatialIndexes.BuildAndQueryKnn | src/spatial_index.c:275-412 | a build and a k-nearest query on an index with unique ids return min(k, n) distinct stored objects, closest first, and no omitted object is closer than a returned one |
| SpatialIndexes.Execute | src/spatial_index.c:206-273 | every operation is one step of the keyed store, and whatever it adds to the index is new |
| SpatialIndexes.ExecuteAll | src/spatial_index.c:206-343 | operations and builds carried out on a new index are a run of the keyed store; if no insert meets an id in use, the objects stored are exactly the abstract map |
| SpatialIndexes.BuildAfterRemoval | src/spatial_index.c:282-285 | inserting any object, building, removing it and building again ends in a built index whose block tree is not current |
| SpatialIndexes.PageWithIsFirst | src/spatial_index.c:20-28 | looking page by page finds the first object with the id among all objects |
| SpatialIndexes.PageCentroidInside | src/page.c:157-175 | in an index of points and non-empty linestrings every non-empty page's centroid lies inside its extent and inside the index bounds |
| Json.StringRoundTrip | src/parser.c:81-132 | a quoted string without quotes and backslashes reads as itself |
| Json.StringRightIff | src/parser.c:89-127 | a terminated literal reads as what it denotes if and only if it has no escape, or one of a backslash at its very end |
| Json.EscapesRead | src/parser.c:108-127 | what a raw string stands for: n, t and r after a backslash are control characters, any other character there is itself |
| Json.NatOfJoins | src/parser.c:137-150 | digits are positional: those in front count as many times ten as there are digits behind |
| JsonParser.ParserState.SkipWhitespace | src/parser.c:24-38 | the position moves over blanks, tabs, carriage returns and newlines, to the first character that is none of the four |
| JsonParser.ParserState.Expect | src/parser.c:66-76 | succeeds exactly when that character is the expected one, which is then passed |
| JsonParser.ParserState.ScanString | src/parser.c:89-103 | the first pass counts what the literal denotes and stops at its end |
| JsonParser.ParserState.CopyString | src/parser.c:108-127 | the second pass copies that many raw characters with escapes replaced |
| JsonParser.ParserState.ParseString | src/parser.c:81-132 | agrees with the string grammar on success, value and position |
| JsonParser.ParserState.ParseNumber | src/parser.c:137-150 | agrees with the decimal grammar |
| JsonParser.ParserState.ParseArray | src/parser.c:160-199 | the loop agrees with the recursive grammar of arrays |
| JsonParser.ParserState.ParseObject | src/parser.c:204-259 | the loop agrees with the recursive grammar of objects |
| JsonParser.ParserState.ParseValue | src/parser.c:264-317 | the recursive-descent reader agrees with the grammar of values, and ends |
| JsonDocs.NumReads | src/parser.c:137-150 | every decimal number, with or without fraction and exponent, reads as its value up to a character that does not continue it |
| JsonDocs.NumberIsNum | src/parser.c:137-150 | whatever reads as a number is such a text, with that value |
| JsonDocs.DocReads | src/parser.c:264-317 | every document whose tokens stand in a text with any spaces before them reads as its value, and the reader ends behind the last token |
| JsonDocs.DocumentReads | src/parser.c:24-38 | every document written with any runs of the four space characters before, between and behind its tokens reads as its value |
| JsonDocs.ValueIsDoc | src/parser.c:264-317 | nothing else is read: a value comes from a document laid out there, or the text begins with a string that is never closed |
| GeoJson.RoundedIsNear | src/parser.c:637-640 | writing six decimals moves a number by at most half a millionth, and not at all if and only if it is a multiple of a millionth |
| GeoJson.NumberRoundTrip | src/parser.c:137-150 | a written coordinate, anywhere in a text, reads back as its rounding |
| GeoJson.FixedShape | src/parser.c:637-640 | a coordinate is written as a sign if negative, a whole part without superfluous zeros, a point and six digits |
| GeoJson.TextRoundTrip | src/parser.c:630-668 | the written text, anywhere in a text, reads as an object with its type and coordinates |
| GeoJson.TextIsDocument | src/parser.c:630-668 | the written text is the tokens of that object, written without spaces |
| GeoJson.RoundTrip | src/parser.c:609-668 | reading what was written gives the geometry to six decimals without its holes |
| GeoJson.RoundTripExactIff | src/parser.c:609-668 | it gives the geometry itself if and only if its coordinates are multiples of a millionth and it has no holes |
| GeoJson.PointJsonReads | src/parser.c:354-361 | an object with type Point and two numbers reads as the point with these coordinates |
| GeoJson.LineJsonReads | src/parser.c:363-382 | an object with type LineString and an array of pairs reads as the line with these points, in order |
| GeoJson.PolygonJsonReads | src/parser.c:384-420 | an object with type Polygon and arrays of pairs reads as the polygon with the first as exterior and the others as holes |
| GeoJson.LaidOutReads | src/parser.c:609-628 | with any runs of the four space characters before, between and behind its tokens a document is taken for the same geometry |
| GeoJson.GeometryErrors | src/parser.c:341-423 | which values are no geometry, and which are of an unsupported type |
| GeoJson.PointOfMeans | src/parser.c:322-336 | a point is an array of at least two elements, the first two numbers |
| GeoJson.ReadPoints | src/parser.c:365-373 | all the points, or an error as soon as an element is none |
| GeoJson.PointsOfMeans | src/parser.c:365-373 | there are points if and only if every element is one, and they are these, in order |
| GeoJson.ReadHoles | src/parser.c:401-416 | the loop fills the holes that HolesExactIff speaks of |
| GeoJson.ValidPointsJoin | src/parser.c:401-416 | a hole has the points of the elements that are points, in order |
| GeoJson.HolesExactIff | src/parser.c:401-416 | the holes are the points of the rings that are arrays, in order, if and only if no ring with points follows one that is no array |
| GeoJson.ReadGeometry | src/parser.c:341-423 | the three geometry types with their error cases |
| GeoJson.ParseGeometry | src/parser.c:609-628 | the object read from a text, id 0, with derived centroid and rectangle, or the kind of error |
| GeoJson.Append | src/parser.c:644-649 | one snprintf at an offset: the text as far as it fits, and its full length |
| GeoJson.LoopEndsInsideIff | src/parser.c:644-649 | the loop over the points ends inside the buffer if and only if all the points fit or the buffer ends with the opening or with a point, and where |
| GeoJson.LoopEndsOutside | src/parser.c:644-649 | it ends behind a buffer that ends inside the first point |
| GeoJson.ExportPoints | src/parser.c:644-649 | the loop writes the points separated by commas, as far as they fit, and ends where that says |
| GeoJson.ClosingInsideIff | src/parser.c:630-668 | the closing piece starts inside the buffer if and only if all before it fits or the buffer ends with the opening or with a point |
| GeoJson.Export | src/parser.c:630-668 | the buffer holds the text, or as much of it as leaves room for a terminator; the length returned is that of the text, or of the buffer and the closing piece when the loop stopped at the end of the buffer |
| GeoJson.ExportThenParse | src/parser.c:609-668 | exporting and parsing restores type and points to six decimals |

## Left out

- File I/O and persistence (create, open, sync, close, save, load, memory mapping, timestamps).
- The Go service and bindings, the command line, the examples and the public wrapper `src/urbis.c`.
- Allocation failure, freeing, and doubling of array capacities.
- Rounding of floating-point arithmetic, NaN, overflow, and 32-bit wrap-around of ids.
- Freeing a page (`src/disk_manager.c:405-418`), which leaves one of its two track entries, and clearing an index (`src/spatial_index.c:635-662`), which leaves the allocation tree behind.
- SpatialIndexes.SpatialIndex.QueryKnn: requires slots within their pages, which a removal after the build can break, since the block tree points into the page arrays; that the answer is the k nearest needs finite centroids.
- SpatialIndexes.AdjacentPagesExact: speaks of a page tree of the pages as they are, since the code does not refresh an old one, and of rectangles with finite corners.
- KDTrees.KDTree.KNearestQuery: needs finite coordinates, since the bounds it queries start from DBL_MAX.
- DiskManagers.BestFitGrowsMin: speaks of tracks whose extents are the empty rectangle or not empty, which they are when all coordinates are finite (`Pages.JointExtentIsLeast`).
- CacheSpec.PolicyIsLeastRecentlyUsed: speaks of requests in which a page is in the pool each time or never.
- KDTrees.QSort: stands for the library's qsort as any sorted permutation in place.
- PageCaches.PageCache.Evict: requires that none of the pages to evict is pinned, which is exactly when the loop ends (`PageCaches.PageCache.EvictEndsIff`).
- PageCaches.PageCache.Get: requires an unpinned least recent page when it has to evict, for the same reason.
- PageCodec.Serialize: requires a header that counts the objects, at most 64, as every page of the engine does; the checksum and its hash are not computed.
- JsonParser.ParserState.ParseNumber: models strtod on decimal numbers only, without hexadecimal, infinity and NaN; line and column counting and error messages are left out.
- GeoJson.Export: requires that the closing piece starts inside the buffer or at its end; otherwise the code writes it behind the buffer, which no contents of the buffer describe.  printf's six decimals are a function with halves rounded to even.
- Text is a sequence of characters without a terminating NUL inside, as a C string is.
- GeoJSON features, feature collections, properties and streaming; WKT.
- Track extents as a search aid, the claim that blocks map to tracks, and block object counts, which the code never fills in.
- The leaf lookup of the KD-tree, the quadtree radius query, block region queries, bulk insert, statistics, access counts and hit rates.
- Rectangles and points are values here, so updates of a rectangle through a pointer appear as assignments of a new one.
