/** The point quadtree as a value: a node is a leaf or a split node, each with
    its boundaries and its bucket.  Insert and Query here are the specification
    that the heap-based class in module PointQuadTrees is proved to follow. */
module QuadTreeModel {
  import opened Geometry

  /** QT_NODE_MAX_CAPACITY, the most entries a node's bucket takes. */
  const MaxCapacity: nat := 4

  /** A payload paired with its position (Data_Node<T>). */
  datatype DataNode<T> = DataNode(point: Point, payload: T)

  datatype Tree<T> =
    | Leaf(bounds: Rect, bucket: seq<DataNode<T>>)
    | Split(bounds: Rect, bucket: seq<DataNode<T>>, nw: Tree<T>, ne: Tree<T>, se: Tree<T>, sw: Tree<T>)
  {
    function Child(d: Direction): Tree<T>
      requires Split?
    {
      match d
      case NorthWest => nw
      case NorthEast => ne
      case SouthEast => se
      case SouthWest => sw
    }

    /** This split node with its child in direction d replaced by c. */
    function WithChild(d: Direction, c: Tree<T>): Tree<T>
      requires Split?
    {
      match d
      case NorthWest => this.(nw := c)
      case NorthEast => this.(ne := c)
      case SouthEast => this.(se := c)
      case SouthWest => this.(sw := c)
    }
  }

  /** A freshly constructed node: a leaf with an empty bucket.  It is well
      formed and stores nothing. */
  function Empty<T>(bounds: Rect): (r: Tree<T>)
    ensures WellFormed(r) && Entries(r) == []
  {
    Leaf(bounds, [])
  }

  /** The one-time split of a leaf: four empty leaves over the quadrants; the
      bucket stays where it is. */
  function Subdivide<T>(t: Tree<T>): (s: Tree<T>)
    requires t.Leaf?
    ensures s.Split? && s.bounds == t.bounds && s.bucket == t.bucket
    ensures forall d :: s.Child(d) == Empty(t.bounds.Quadrant(d))
  {
    var b := t.bounds;
    Split(b, t.bucket, Empty(b.Quadrant(NorthWest)), Empty(b.Quadrant(NorthEast)),
          Empty(b.Quadrant(SouthEast)), Empty(b.Quadrant(SouthWest)))
  }

  function MaxNat(a: nat, b: nat): nat {
    if a < b then b else a
  }

  /** A bound on how deep Insert recurses: a leaf with room takes the entry
      itself, a full leaf splits and hands it to a fresh (empty) child. */
  function InsertDepth<T>(t: Tree<T>): nat {
    match t
    case Leaf(_, bucket) => if |bucket| < MaxCapacity then 0 else 1
    case Split(_, _, nw, ne, se, sw) =>
      1 + MaxNat(MaxNat(InsertDepth(nw), InsertDepth(ne)), MaxNat(InsertDepth(se), InsertDepth(sw)))
  }

  /** The node that a full node delegates to: itself once split, or its
      subdivision while still a leaf. */
  function Opened<T>(t: Tree<T>): (s: Tree<T>)
    requires t.Split? || |t.bucket| >= MaxCapacity
    ensures s.Split? && s.bounds == t.bounds && s.bucket == t.bucket
    ensures InsertDepth(s) <= InsertDepth(t)
  {
    if t.Leaf? then Subdivide(t) else t
  }

  /** Every entry stored in the subtree, in the order Query visits them: the
      bucket first, then the north-east, north-west, south-east and south-west
      subtrees. */
  function Entries<T>(t: Tree<T>): seq<DataNode<T>> {
    match t
    case Leaf(_, bucket) => bucket
    case Split(_, bucket, nw, ne, se, sw) => bucket + Entries(ne) + Entries(nw) + Entries(se) + Entries(sw)
  }

  /** Insert: reject a point outside the boundaries; append while the bucket
      has room; otherwise split (once, if still a leaf) and delegate to the
      children.  Returns the new tree and whether the entry was stored. */
  function Insert<T>(t: Tree<T>, e: DataNode<T>): (r: (Tree<T>, bool))
    ensures r.0.bounds == t.bounds
    ensures !t.bounds.Contains(e.point) ==> r == (t, false)
    ensures t.bounds.Contains(e.point) && |t.bucket| < MaxCapacity ==>
              r == (t.(bucket := t.bucket + [e]), true)
    ensures |t.bucket| >= MaxCapacity ==> r.0.bucket == t.bucket
    ensures r.0.Leaf? <==> t.Leaf? && (|t.bucket| < MaxCapacity || !t.bounds.Contains(e.point))
    decreases InsertDepth(t), 2
  {
    if !t.bounds.Contains(e.point) then (t, false)
    else if |t.bucket| < MaxCapacity then (t.(bucket := t.bucket + [e]), true)
    else Delegate(Opened(t), e)
  }

  /** Offer the entry to the children of a split node in the order north-west,
      north-east, south-east, south-west, stopping at the first that accepts. */
  function Delegate<T>(s: Tree<T>, e: DataNode<T>): (r: (Tree<T>, bool))
    requires s.Split?
    ensures r.0.Split? && r.0.bounds == s.bounds && r.0.bucket == s.bucket
    decreases InsertDepth(s), 1
  {
    var (s1, okNW) := InsertIntoChild(s, NorthWest, e);
    if okNW then (s1, true)
    else
      var (s2, okNE) := InsertIntoChild(s1, NorthEast, e);
      if okNE then (s2, true)
      else
        var (s3, okSE) := InsertIntoChild(s2, SouthEast, e);
        if okSE then (s3, true)
        else InsertIntoChild(s3, SouthWest, e)
  }

  /** The child in direction d inserts the entry; the split node takes in
      whatever that Insert made of the child (in place, so even a child that
      rejects the entry keeps its own result) and nothing else changes. */
  function InsertIntoChild<T>(s: Tree<T>, d: Direction, e: DataNode<T>): (r: (Tree<T>, bool))
    requires s.Split?
    ensures r.0.Split? && r.0 == s.WithChild(d, r.0.Child(d))
    ensures !s.Child(d).bounds.Contains(e.point) ==> r == (s, false)
    decreases InsertDepth(s.Child(d)) + 1, 0
  {
    var (c, ok) := Insert(s.Child(d), e);
    (s.WithChild(d, c), ok)
  }

  /** The entries of s whose points lie in range, in their order in s. */
  function Filter<T>(s: seq<DataNode<T>>, range: Rect): (r: seq<DataNode<T>>)
    ensures |r| <= |s|
    ensures forall i :: 0 <= i < |r| ==> range.Contains(r[i].point)
  {
    if s == [] then []
    else
      var init, last := s[..|s| - 1], s[|s| - 1];
      Filter(init, range) + if range.Contains(last.point) then [last] else []
  }

  /** QueryRange: nothing from a subtree whose boundaries miss the range;
      otherwise the bucket's entries in range, then the children's answers in
      the order north-east, north-west, south-east, south-west. */
  function Query<T>(t: Tree<T>, range: Rect): (r: seq<DataNode<T>>)
    ensures forall i :: 0 <= i < |r| ==> range.Contains(r[i].point)
    ensures |r| <= |Entries(t)|
  {
    if !t.bounds.Intersects(range) then []
    else
      match t
      case Leaf(_, bucket) => Filter(bucket, range)
      case Split(_, bucket, nw, ne, se, sw) =>
        Filter(bucket, range) + Query(ne, range) + Query(nw, range) + Query(se, range) + Query(sw, range)
  }

  /** The invariant every reachable node keeps: a bucket within capacity whose
      points lie inside the boundaries; a split node's bucket is full (it was
      full when the node split and is never appended to again) and its children
      cover exactly the four quadrants. */
  predicate WellFormed<T>(t: Tree<T>)
    decreases t, 1
  {
    |t.bucket| <= MaxCapacity &&
    (forall i :: 0 <= i < |t.bucket| ==> t.bounds.Contains(t.bucket[i].point)) &&
    (t.Split? ==> |t.bucket| == MaxCapacity && ChildrenWellFormed(t))
  }

  /** The children of a split node are well formed and lie over the quadrants
      of its boundaries: what Delegate needs of a (possibly freshly
      subdivided) node. */
  predicate ChildrenWellFormed<T>(s: Tree<T>)
    requires s.Split?
    decreases s, 0
  {
    var b := s.bounds;
    s.nw.bounds == b.Quadrant(NorthWest) && s.ne.bounds == b.Quadrant(NorthEast) &&
    s.se.bounds == b.Quadrant(SouthEast) && s.sw.bounds == b.Quadrant(SouthWest) &&
    WellFormed(s.nw) && WellFormed(s.ne) && WellFormed(s.se) && WellFormed(s.sw)
  }

  /** The state a client sees after inserting es one by one. */
  function InsertAll<T>(t: Tree<T>, es: seq<DataNode<T>>): Tree<T>
    decreases |es|
  {
    if es == [] then t else InsertAll(Insert(t, es[0]).0, es[1..])
  }

  // ---------------------------------------------------------------------------
  // Lemmas

  /** Inserting es and then x is inserting es + [x]: a loop of inserts builds
      InsertAll one entry at a time. */
  lemma {:induction false} InsertAllSnoc<T>(t: Tree<T>, es: seq<DataNode<T>>, x: DataNode<T>)
    ensures InsertAll(t, es + [x]) == Insert(InsertAll(t, es), x).0
    decreases |es|
  {
    if es == [] {
      assert es + [x] == [x];
    } else {
      assert (es + [x])[1..] == es[1..] + [x];
      InsertAllSnoc(Insert(t, es[0]).0, es[1..], x);
    }
  }

  /** Every entry stored anywhere in a well-formed subtree lies inside the
      subtree's boundaries. */
  lemma {:induction false} EntriesInside<T>(t: Tree<T>)
    requires WellFormed(t)
    ensures forall e :: e in Entries(t) ==> t.bounds.Contains(e.point)
  {
    match t
    case Leaf(_, _) =>
    case Split(b, bucket, nw, ne, se, sw) =>
      EntriesInside(nw);
      EntriesInside(ne);
      EntriesInside(se);
      EntriesInside(sw);
      forall e | e in Entries(t) ensures b.Contains(e.point) {
        if e in Entries(nw) {
          QuadrantsTile(b, e.point, NorthWest);
        } else if e in Entries(ne) {
          QuadrantsTile(b, e.point, NorthEast);
        } else if e in Entries(se) {
          QuadrantsTile(b, e.point, SouthEast);
        } else if e in Entries(sw) {
          QuadrantsTile(b, e.point, SouthWest);
        }
      }
  }

  /** Whatever the tree, an accepted Insert adds exactly that one entry to the
      subtree's stored entries and a rejected Insert adds none. */
  lemma {:induction false} InsertAddsOneEntry<T>(t: Tree<T>, e: DataNode<T>)
    ensures multiset(Entries(Insert(t, e).0)) == multiset(Entries(t)) + if Insert(t, e).1 then multiset{e} else multiset{}
    decreases InsertDepth(t), 2
  {
    if t.bounds.Contains(e.point) && |t.bucket| >= MaxCapacity {
      DelegateAddsOneEntry(Opened(t), e);
    }
  }

  /** Replacing one child changes a split node's entries by exactly what the
      replacement adds to that child's. */
  lemma ReplaceChild<T>(s: Tree<T>, d: Direction, c: Tree<T>, added: multiset<DataNode<T>>)
    requires s.Split? && multiset(Entries(c)) == multiset(Entries(s.Child(d))) + added
    ensures multiset(Entries(s.WithChild(d, c))) == multiset(Entries(s)) + added
  {
  }

  lemma {:induction false} DelegateAddsOneEntry<T>(s: Tree<T>, e: DataNode<T>)
    requires s.Split?
    ensures multiset(Entries(Delegate(s, e).0)) == multiset(Entries(s)) + if Delegate(s, e).1 then multiset{e} else multiset{}
    decreases InsertDepth(s), 1
  {
    var (s1, okNW) := InsertIntoChild(s, NorthWest, e);
    InsertIntoChildAddsOneEntry(s, NorthWest, e);
    if okNW {
      return;
    }
    var (s2, okNE) := InsertIntoChild(s1, NorthEast, e);
    InsertIntoChildAddsOneEntry(s1, NorthEast, e);
    if okNE {
      return;
    }
    var (s3, okSE) := InsertIntoChild(s2, SouthEast, e);
    InsertIntoChildAddsOneEntry(s2, SouthEast, e);
    if okSE {
      return;
    }
    InsertIntoChildAddsOneEntry(s3, SouthWest, e);
  }

  lemma {:induction false} InsertIntoChildAddsOneEntry<T>(s: Tree<T>, d: Direction, e: DataNode<T>)
    requires s.Split?
    ensures InsertIntoChild(s, d, e).1 ==> multiset(Entries(InsertIntoChild(s, d, e).0)) == multiset(Entries(s)) + multiset{e}
    ensures !InsertIntoChild(s, d, e).1 ==> multiset(Entries(InsertIntoChild(s, d, e).0)) == multiset(Entries(s))
    decreases InsertDepth(s.Child(d)) + 1, 0
  {
    var (c, ok) := Insert(s.Child(d), e);
    InsertAddsOneEntry(s.Child(d), e);
    ReplaceChild(s, d, c, if ok then multiset{e} else multiset{});
  }

  lemma OpenedChildrenWellFormed<T>(t: Tree<T>)
    requires WellFormed(t) && (t.Split? || |t.bucket| >= MaxCapacity)
    ensures ChildrenWellFormed(Opened(t))
  {
  }

  /** A well-formed node accepts an entry exactly when its boundaries contain
      the entry's point: once the quadrants tile the node, the "should never
      happen" rejection after trying all four children cannot occur. */
  lemma {:induction false} InsertAcceptsIffInside<T>(t: Tree<T>, e: DataNode<T>)
    requires WellFormed(t)
    ensures Insert(t, e).1 <==> t.bounds.Contains(e.point)
    decreases InsertDepth(t), 2
  {
    if t.bounds.Contains(e.point) && |t.bucket| >= MaxCapacity {
      OpenedChildrenWellFormed(t);
      DelegateRoutesToQuadrant(Opened(t), e);
    }
  }

  /** Delegating from a node whose children cover its quadrants stores the
      entry in the one child whose quadrant contains the point and leaves the
      other three children as they were. */
  lemma {:induction false} DelegateRoutesToQuadrant<T>(s: Tree<T>, e: DataNode<T>)
    requires s.Split? && ChildrenWellFormed(s) && s.bounds.Contains(e.point)
    ensures Delegate(s, e).1
    ensures forall d :: Delegate(s, e).0.Child(d) ==
              if d == s.bounds.QuadrantOf(e.point) then Insert(s.Child(d), e).0 else s.Child(d)
    decreases InsertDepth(s), 1
  {
    var b, p := s.bounds, e.point;
    var home := b.QuadrantOf(p);
    QuadrantsTile(b, p, NorthWest);
    QuadrantsTile(b, p, NorthEast);
    QuadrantsTile(b, p, SouthEast);
    QuadrantsTile(b, p, SouthWest);
    match home
    case NorthWest => InsertAcceptsIffInside(s.nw, e);
    case NorthEast => InsertAcceptsIffInside(s.ne, e);
    case SouthEast => InsertAcceptsIffInside(s.se, e);
    case SouthWest => InsertAcceptsIffInside(s.sw, e);
  }

  /** A full, well-formed node whose boundaries contain the entry's point keeps
      its bucket, is split afterwards, and stores the entry in the child over
      the point's quadrant; the other three children are as before (empty
      leaves, if this Insert made the split). */
  lemma InsertIntoFullNode<T>(t: Tree<T>, e: DataNode<T>)
    requires WellFormed(t) && |t.bucket| == MaxCapacity && t.bounds.Contains(e.point)
    ensures Insert(t, e).1
    ensures Insert(t, e).0.Split? && Insert(t, e).0.bucket == t.bucket
    ensures forall d :: Insert(t, e).0.Child(d) ==
              if d == t.bounds.QuadrantOf(e.point) then Insert(Opened(t).Child(d), e).0 else Opened(t).Child(d)
  {
    OpenedChildrenWellFormed(t);
    DelegateRoutesToQuadrant(Opened(t), e);
  }

  /** Insert keeps a node well formed. */
  lemma {:induction false} InsertPreservesWellFormed<T>(t: Tree<T>, e: DataNode<T>)
    requires WellFormed(t)
    ensures WellFormed(Insert(t, e).0)
    decreases InsertDepth(t), 2
  {
    if t.bounds.Contains(e.point) && |t.bucket| >= MaxCapacity {
      OpenedChildrenWellFormed(t);
      DelegatePreservesWellFormed(Opened(t), e);
    }
  }

  lemma {:induction false} DelegatePreservesWellFormed<T>(s: Tree<T>, e: DataNode<T>)
    requires s.Split? && ChildrenWellFormed(s)
    ensures ChildrenWellFormed(Delegate(s, e).0)
    decreases InsertDepth(s), 1
  {
    var (s1, okNW) := InsertIntoChild(s, NorthWest, e);
    InsertIntoChildPreservesWellFormed(s, NorthWest, e);
    if okNW {
      return;
    }
    var (s2, okNE) := InsertIntoChild(s1, NorthEast, e);
    InsertIntoChildPreservesWellFormed(s1, NorthEast, e);
    if okNE {
      return;
    }
    var (s3, okSE) := InsertIntoChild(s2, SouthEast, e);
    InsertIntoChildPreservesWellFormed(s2, SouthEast, e);
    if okSE {
      return;
    }
    InsertIntoChildPreservesWellFormed(s3, SouthWest, e);
  }

  lemma {:induction false} InsertIntoChildPreservesWellFormed<T>(s: Tree<T>, d: Direction, e: DataNode<T>)
    requires s.Split? && ChildrenWellFormed(s)
    ensures ChildrenWellFormed(InsertIntoChild(s, d, e).0)
    decreases InsertDepth(s.Child(d)) + 1, 0
  {
    InsertPreservesWellFormed(s.Child(d), e);
  }

  /** Filter keeps every entry in range, with its multiplicity, and nothing else. */
  lemma {:induction false} FilterCounts<T>(s: seq<DataNode<T>>, range: Rect)
    ensures forall e :: e in Filter(s, range) <==> e in s && range.Contains(e.point)
    ensures forall e :: multiset(Filter(s, range))[e] == if range.Contains(e.point) then multiset(s)[e] else 0
    decreases |s|
  {
    if s != [] {
      var init, last := s[..|s| - 1], s[|s| - 1];
      assert s == init + [last];
      FilterCounts(init, range);
    }
  }

  lemma {:induction false} FilterAppend<T>(a: seq<DataNode<T>>, b: seq<DataNode<T>>, range: Rect)
    ensures Filter(a + b, range) == Filter(a, range) + Filter(b, range)
    decreases |b|
  {
    if b == [] {
      assert a + b == a;
    } else {
      var init, last := b[..|b| - 1], b[|b| - 1];
      assert (a + b)[..|a + b| - 1] == a + init;
      assert (a + b)[|a + b| - 1] == last;
      FilterAppend(a, init, range);
    }
  }

  /** If every entry of s lies in a box that misses the range, none is in range. */
  lemma {:induction false} FilterOfDisjointBox<T>(s: seq<DataNode<T>>, box: Rect, range: Rect)
    requires forall e :: e in s ==> box.Contains(e.point)
    requires !box.Intersects(range)
    ensures Filter(s, range) == []
    decreases |s|
  {
    if s != [] {
      var init, last := s[..|s| - 1], s[|s| - 1];
      assert last in s;
      assert forall e :: e in init ==> e in s;
      FilterOfDisjointBox(init, box, range);
      IntersectsIffCommonPoint(box, range);
      assert !range.Contains(last.point);
    }
  }

  /** QueryRange returns exactly the stored entries whose points lie in the
      range, in storage order (bucket, then north-east, north-west, south-east,
      south-west), and so the same multiset as a linear scan. */
  lemma {:induction false} QueryIsFilteredEntries<T>(t: Tree<T>, range: Rect)
    requires WellFormed(t)
    ensures Query(t, range) == Filter(Entries(t), range)
    ensures forall e :: multiset(Query(t, range))[e] ==
              if range.Contains(e.point) then multiset(Entries(t))[e] else 0
  {
    FilterCounts(Entries(t), range);
    if !t.bounds.Intersects(range) {
      EntriesInside(t);
      FilterOfDisjointBox(Entries(t), t.bounds, range);
    } else {
      match t
      case Leaf(_, _) =>
      case Split(_, bucket, nw, ne, se, sw) =>
        QueryIsFilteredEntries(nw, range);
        QueryIsFilteredEntries(ne, range);
        QueryIsFilteredEntries(se, range);
        QueryIsFilteredEntries(sw, range);
        FilterAppend(bucket + Entries(ne) + Entries(nw) + Entries(se), Entries(sw), range);
        FilterAppend(bucket + Entries(ne) + Entries(nw), Entries(se), range);
        FilterAppend(bucket + Entries(ne), Entries(nw), range);
        FilterAppend(bucket, Entries(ne), range);
    }
  }

  lemma FilterCons<T>(x: DataNode<T>, rest: seq<DataNode<T>>, range: Rect)
    ensures Filter([x] + rest, range) == (if range.Contains(x.point) then [x] else []) + Filter(rest, range)
  {
    FilterAppend([x], rest, range);
    assert [x][..0] == [];
  }

  /** Inserting es one by one keeps a tree well formed over the same bounds. */
  lemma {:induction false} InsertAllPreservesWellFormed<T>(t: Tree<T>, es: seq<DataNode<T>>)
    requires WellFormed(t)
    ensures InsertAll(t, es).bounds == t.bounds && WellFormed(InsertAll(t, es))
    decreases |es|
  {
    if es != [] {
      InsertPreservesWellFormed(t, es[0]);
      InsertAllPreservesWellFormed(Insert(t, es[0]).0, es[1..]);
    }
  }

  /** Inserting es one by one into a well-formed tree stores exactly the
      entries of es whose points lie in the root's boundaries; the rest are
      rejected. */
  lemma {:induction false} InsertAllStoresInsideEntries<T>(t: Tree<T>, es: seq<DataNode<T>>)
    requires WellFormed(t)
    ensures multiset(Entries(InsertAll(t, es))) == multiset(Entries(t)) + multiset(Filter(es, t.bounds))
    decreases |es|
  {
    if es != [] {
      var x, rest := es[0], es[1..];
      var t' := Insert(t, x).0;
      InsertPreservesWellFormed(t, x);
      InsertAcceptsIffInside(t, x);
      InsertAddsOneEntry(t, x);
      InsertAllStoresInsideEntries(t', rest);
      assert es == [x] + rest;
      FilterCons(x, rest, t.bounds);
    }
  }

  lemma MultisetsEqual<X>(a: multiset<X>, b: multiset<X>)
    requires forall x :: a[x] == b[x]
    ensures a == b
  {
  }

  /** After further inserts es into a well-formed tree, a query for range
      returns, as a multiset, what it returned before plus exactly the entries
      of es that lie both in the tree's bounds (were accepted) and in range. */
  lemma QueryAfterInserts<T>(t: Tree<T>, es: seq<DataNode<T>>, range: Rect)
    requires WellFormed(t)
    ensures multiset(Query(InsertAll(t, es), range)) ==
              multiset(Query(t, range)) + multiset(Filter(Filter(es, t.bounds), range))
  {
    var t' := InsertAll(t, es);
    var inside := Filter(es, t.bounds);
    InsertAllPreservesWellFormed(t, es);
    InsertAllStoresInsideEntries(t, es);
    QueryIsFilteredEntries(t, range);
    QueryIsFilteredEntries(t', range);
    FilterCounts(inside, range);
    var lhs, rhs := multiset(Query(t', range)), multiset(Query(t, range)) + multiset(Filter(inside, range));
    forall x ensures lhs[x] == rhs[x] {
    }
    MultisetsEqual(lhs, rhs);
  }

  /** End to end, from a freshly constructed root: a query returns exactly the
      inserted entries that lie both in the root's bounds and in the range. */
  lemma QueryAfterInsertsIntoEmpty<T>(bounds: Rect, es: seq<DataNode<T>>, range: Rect)
    ensures multiset(Query(InsertAll(Empty(bounds), es), range)) == multiset(Filter(Filter(es, bounds), range))
  {
    QueryAfterInserts(Empty(bounds), es, range);
  }
}
