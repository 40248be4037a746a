# Point quadtree, modelled and verified in Dafny

This project models the bucketed point quadtree of `Algos-Test/PointQuadTree.cpp`.
Each node covers an axis-aligned box, given by a centre and half-extents. It keeps
a bucket of up to `QT_NODE_MAX_CAPACITY` (4) entries, each a point with a payload.
A full node splits once into four children, north-west, north-east, south-east and
south-west. After the split its bucket stays where it is and new entries go to the
children. A range query prunes every subtree whose box misses the range. It then
collects the bucket's entries that lie in the range, and after them the answers of
the north-east, north-west, south-east and south-west children.

The project has three modules, one per file:

- `Geometry` (`geometry.dfy`) holds points, boxes, containment, intersection and
  the four quadrants of a box. It also holds the box the subdivision code
  actually computes (see Findings).
- `QuadTreeModel` (`quadtree_model.dfy`) is the tree as a value: the datatype
  `Tree`, the functions `Insert`, `Delegate`, `InsertIntoChild`, `Subdivide` and
  `Query`, the invariant `WellFormed`, and the lemmas about them.
- `PointQuadTrees` (`point_quadtree.dfy`) is the class `PointQuadTree<T>`, with the
  source's fields (`boundaries`, `points`, `northWest`, `northEast`, `southEast`,
  `southWest`). Its methods update those fields in place. Each object carries a
  ghost `Model` (its subtree as a `Tree`) and a ghost `Repr` (the objects it owns).
  Every method is proved to act on `Model` exactly as the matching function of
  `QuadTreeModel`, so the lemmas about the functions carry over to the class.
  The delegation part of `Insert` (lines 76-82) sits in a method `Delegate`, and
  each of its four child calls in a method of its own (`IntoNorthWest` and so
  on). This keeps each proof step small; the calls and their order are the
  source's.

Coordinates are exact reals. Every box is half-open on each axis, holding the
points with `centre - half <= p < centre + half`. `Intersects` is defined so that it
holds exactly when the two boxes share a point. With this convention the four
quadrants tile their parent. The payload type `T` is an opaque type parameter.

Line 65 tests only the bucket's size, not whether the node is a leaf. The model
does the same. `QuadTreeModel.WellFormed` shows that a split node's bucket is full
and stays full, so on a split node the append branch is never taken.

## Model

| member | source | states |
|---|---|---|
| PointQuadTrees.PointQuadTree.constructor | Algos-Test/PointQuadTree.cpp:26-30 | the new node has the given boundaries, an empty bucket and four null children; its model is the empty leaf, which is well formed, and it owns only itself |
| PointQuadTrees.PointQuadTree.Subdivide | Algos-Test/PointQuadTree.cpp:98-112 | on a leaf: installs four fresh children and leaves the bucket unchanged; the new model is `QuadTreeModel.Subdivide` of the old one and the object invariant holds |
| PointQuadTrees.PointQuadTree.NewQuadrants | Algos-Test/PointQuadTree.cpp:101-111 | four fresh, distinct, valid leaves, one over each quadrant of the box, each owning only itself |
| PointQuadTrees.PointQuadTree.Insert | Algos-Test/PointQuadTree.cpp:58-83 | the new model and the result are exactly `QuadTreeModel.Insert(old model, e)`; a well-formed model stays well formed; the object invariant is kept and the only new objects are fresh ones |
| PointQuadTrees.PointQuadTree.Delegate | Algos-Test/PointQuadTree.cpp:76-82 | the new model and the result are exactly `QuadTreeModel.Delegate(old model, e)`, children tried north-west, north-east, south-east, south-west |
| PointQuadTrees.PointQuadTree.IntoNorthWest | Algos-Test/PointQuadTree.cpp:76 | the north-west child inserts e; the new model and the result are `QuadTreeModel.InsertIntoChild(old model, NorthWest, e)` |
| PointQuadTrees.PointQuadTree.IntoNorthEast | Algos-Test/PointQuadTree.cpp:77 | as above for the north-east child |
| PointQuadTrees.PointQuadTree.IntoSouthEast | Algos-Test/PointQuadTree.cpp:78 | as above for the south-east child |
| PointQuadTrees.PointQuadTree.IntoSouthWest | Algos-Test/PointQuadTree.cpp:79 | as above for the south-west child |
| PointQuadTrees.PointQuadTree.QueryRange | Algos-Test/PointQuadTree.cpp:127-132 | returns `Query(model, range)`; on a well-formed tree that is exactly the stored entries in range, in storage order |
| PointQuadTrees.PointQuadTree.QueryRangeRecursive | Algos-Test/PointQuadTree.cpp:147-169 | appends `Query(model, range)` to the given result and keeps what was already there; the bucket loop's invariant is that the output is the input followed by the in-range entries scanned so far |
| QuadTreeModel.Insert | Algos-Test/PointQuadTree.cpp:58-83 | a point outside the boundaries is rejected and nothing changes; with room in the bucket the entry is appended and accepted; a full node keeps its bucket; the result is a leaf exactly when the node was a leaf that was not full or rejected the point; the boundaries never change |
| QuadTreeModel.Delegate | Algos-Test/PointQuadTree.cpp:76-82 | the node stays split and keeps its boundaries and bucket |
| QuadTreeModel.InsertIntoChild | Algos-Test/PointQuadTree.cpp:76-79 | only the child in the given direction changes; a child whose box misses the point rejects it and nothing changes |
| QuadTreeModel.Subdivide | Algos-Test/PointQuadTree.cpp:98-112 | the result is split, keeps the boundaries and bucket, and its child in each direction is an empty leaf over that quadrant |
| QuadTreeModel.Empty | Algos-Test/PointQuadTree.cpp:26-30 | a freshly constructed node is well formed and stores nothing |
| QuadTreeModel.Opened | Algos-Test/PointQuadTree.cpp:73-74 | a full node is split before it delegates: the result is split, with the same boundaries and bucket, and subdividing does not raise the insert-depth bound |
| QuadTreeModel.Filter | Algos-Test/PointQuadTree.cpp:154-158 | the bucket scan: no longer than its input, and every entry it keeps lies in the range |
| QuadTreeModel.Query | Algos-Test/PointQuadTree.cpp:147-169 | every returned entry lies in the range, and there are no more of them than stored entries |
| QuadTreeModel.EntriesInside | Algos-Test/PointQuadTree.cpp:60-62 | every entry stored in a well-formed subtree lies inside its boundaries |
| QuadTreeModel.InsertAddsOneEntry | Algos-Test/PointQuadTree.cpp:58-83 | on any tree, an accepted insert adds exactly that entry to the stored multiset and a rejected one adds nothing |
| QuadTreeModel.DelegateAddsOneEntry | Algos-Test/PointQuadTree.cpp:76-82 | the same for delegation from a split node |
| QuadTreeModel.InsertIntoChildAddsOneEntry | Algos-Test/PointQuadTree.cpp:76-79 | the same for a single child's insert |
| QuadTreeModel.InsertAcceptsIffInside | Algos-Test/PointQuadTree.cpp:58-83 | a well-formed node accepts an entry if and only if its boundaries contain the point, so the final `return false` at line 82 is unreachable |
| QuadTreeModel.DelegateRoutesToQuadrant | Algos-Test/PointQuadTree.cpp:76-79 | from a node whose children cover its quadrants, a point inside is accepted by the child of its own quadrant, and the other three children are unchanged |
| QuadTreeModel.InsertIntoFullNode | Algos-Test/PointQuadTree.cpp:70-79 | a full well-formed node with the point inside accepts it, becomes or stays split, keeps its bucket, and changes only the child of the point's quadrant |
| QuadTreeModel.InsertPreservesWellFormed | Algos-Test/PointQuadTree.cpp:58-83 | insert keeps a node well formed: buckets within capacity and inside their boundaries, split buckets full, children over the quadrants |
| QuadTreeModel.DelegatePreservesWellFormed | Algos-Test/PointQuadTree.cpp:76-82 | delegation keeps the children well formed and over their quadrants |
| QuadTreeModel.InsertIntoChildPreservesWellFormed | Algos-Test/PointQuadTree.cpp:76-79 | a single child's insert keeps the children well formed and over their quadrants |
| QuadTreeModel.OpenedChildrenWellFormed | Algos-Test/PointQuadTree.cpp:73-74 | the node a full node delegates from (split now if it was a leaf) has well-formed children over its quadrants |
| QuadTreeModel.FilterCounts | Algos-Test/PointQuadTree.cpp:154-158 | the scan keeps exactly the entries in range, each with its multiplicity |
| QuadTreeModel.FilterAppend | Algos-Test/PointQuadTree.cpp:154-158 | scanning a concatenation is concatenating the scans |
| QuadTreeModel.FilterOfDisjointBox | Algos-Test/PointQuadTree.cpp:149-151 | entries inside a box that misses the range are never in the range, so pruning loses nothing |
| QuadTreeModel.QueryIsFilteredEntries | Algos-Test/PointQuadTree.cpp:147-169 | on a well-formed tree, the pruned query equals a linear scan of all stored entries, with the same multiplicities |
| QuadTreeModel.InsertAllPreservesWellFormed | Algos-Test/PointQuadTree.cpp:58-83 | any sequence of inserts keeps the tree well formed over the same boundaries |
| QuadTreeModel.InsertAllStoresInsideEntries | Algos-Test/PointQuadTree.cpp:58-83 | a sequence of inserts stores exactly the entries whose points lie inside the root's boundaries |
| QuadTreeModel.InsertAllSnoc | Algos-Test/PointQuadTree.cpp:58-83 | inserting a sequence and then one more entry is inserting the extended sequence, so a client's loop of inserts builds `InsertAll` |
| QuadTreeModel.QueryAfterInserts | Algos-Test/PointQuadTree.cpp:127-132 | after a sequence of inserts into a well-formed tree, a query returns the earlier answer plus the inserted entries that lie in both the boundaries and the range |
| QuadTreeModel.QueryAfterInsertsIntoEmpty | Algos-Test/PointQuadTree.cpp:127-132 | starting from a new node, a query returns exactly the inserted entries inside both the root's boundaries and the range |
| Geometry.Rect.Contains | Algos-Test/PointQuadTree.cpp:60 | the containment test used by Insert (and, as `ContainsPoint`, at line 155): a box with no extent on some axis contains no point |
| Geometry.Rect.Intersects | Algos-Test/PointQuadTree.cpp:149 | the pruning test: boxes intersect only when both have extent on both axes |
| Geometry.Rect.Quadrant | Algos-Test/PointQuadTree.cpp:99-111 | the child region as intended: every point of quadrant d lies in the parent box and has d as its quadrant |
| Geometry.Rect.QuadrantAsWritten | Algos-Test/PointQuadTree.cpp:99-111 | the child region as written: it covers the whole intended quadrant, so no point is lost (the fault is the overhang shown by `AsWrittenChildOverhangsParent`) |
| Geometry.IntersectsIffCommonPoint | Algos-Test/PointQuadTree.cpp:149-151 | two boxes intersect if and only if some point lies in both |
| Geometry.QuadrantsTile | Algos-Test/PointQuadTree.cpp:98-111 | a point is in quadrant d of a box if and only if it is in the box and d is its quadrant, so the quadrants tile the box |
| Geometry.AsWrittenChildOverhangsParent | Algos-Test/PointQuadTree.cpp:99 | with the child size the code uses, the north-east child of the box centred at (0, 0) with half-extents (10, 10) contains (15, 15), which lies outside the parent |

## Left out

- The destructor (lines 36-43) and all `new`/`delete` memory management. Dafny's heap is garbage collected; the ownership it implies is captured only by the disjoint `Repr` sets.
- Floating point. Coordinates are exact reals, so halving a box is exact and the quadrants tile it exactly; rounding drift is not modelled.
- `Rect_AABB`, `Vector2`, `Data_Node` and `QT_NODE_MAX_CAPACITY` come from a header that is not part of this model. Containment is taken as half-open, intersection as "share a point", and the capacity as 4.
- Typos that do not compile are modelled by their evident intent. At lines 104, 107 and 110 a whole vector `children_size` stands where one component is meant. At line 111 `child_center_children_size` stands for the two arguments `child_center, children_size`. At lines 155-156 `point` is the entry, so the check is on its point, and `results` is the `result` parameter. At line 162 `return results;` in a `void` function is a plain return.
- The point-splitting (Finkel-Bentley) variant and the static-balancing pre-processing described in the header comment (lines 13-19) are not implemented in the code and are not modelled.
- Concurrency: the tree is single-threaded and so is the model.

## Findings

| source | as written | input that shows it | evidently intended | confidence | as-written member | corrected member |
|---|---|---|---|---|---|---|
| Algos-Test/PointQuadTree.cpp:99 | the children's half-extents are the parent's own half-extents, so each child is as large as the parent and centred on a parent corner | parent centred at (0, 0) with half-extents (10, 10): the north-east child holds (15, 15), which lies outside the parent | the children's half-extents are half the parent's, so the four children tile the parent | high; not executed | Geometry.Rect.QuadrantAsWritten, Geometry.AsWrittenChildOverhangsParent | Geometry.Rect.Quadrant, Geometry.QuadrantsTile |
