/** The quadtree node as the program keeps it: an object whose bucket grows in
    place and whose four child pointers are installed once, by Subdivide.
    Each object carries a ghost Model (its subtree as a QuadTreeModel.Tree)
    and a ghost Repr (the objects of its subtree); every method is proved to
    act on Model exactly as the corresponding function of QuadTreeModel. */
module PointQuadTrees {
  import opened Geometry
  import opened QuadTreeModel

  class PointQuadTree<T> {
    const boundaries: Rect
    var points: seq<DataNode<T>>
    var northWest: PointQuadTree?<T>
    var northEast: PointQuadTree?<T>
    var southEast: PointQuadTree?<T>
    var southWest: PointQuadTree?<T>

    ghost var Model: Tree<T>
    ghost var Repr: set<object>

    /** The object invariant: Model mirrors the fields; either all four
        children are null (a leaf) or all four are present, each valid, owned
        by this node alone and mirrored by the matching subtree of Model, and
        no two of them share an object (a split node). */
    ghost predicate Valid()
      reads this, Repr
      ensures Valid() ==> this in Repr
      decreases Repr, 1
    {
      this in Repr &&
      Model.bounds == boundaries && Model.bucket == points &&
      (northWest == null <==> Model.Leaf?) &&
      (northWest == null ==> northEast == null && southEast == null && southWest == null) &&
      (northWest != null ==>
        Model.Split? &&
        Child(northWest, Model.nw) && Child(northEast, Model.ne) &&
        Child(southEast, Model.se) && Child(southWest, Model.sw) &&
        northWest.Repr !! northEast.Repr && northWest.Repr !! southEast.Repr &&
        northWest.Repr !! southWest.Repr && northEast.Repr !! southEast.Repr &&
        northEast.Repr !! southWest.Repr && southEast.Repr !! southWest.Repr)
    }

    /** c is a valid child node, owned by this one and mirrored by m. */
    ghost predicate Child(c: PointQuadTree?<T>, m: Tree<T>)
      reads this, Repr
      decreases Repr, 0
    {
      this in Repr && c != null && c in Repr && c.Repr <= Repr && this !in c.Repr &&
      c.Valid() && c.Model == m
    }

    /** A new node: a leaf over the given boundaries with an empty bucket. */
    constructor (b: Rect)
      ensures Valid() && fresh(Repr) && Repr == {this}
      ensures boundaries == b && points == []
      ensures northWest == null && northEast == null && southEast == null && southWest == null
      ensures Model == Empty(b) && WellFormed(Model)
    {
      boundaries := b;
      points := [];
      northWest, northEast, southEast, southWest := null, null, null, null;
      Model := Empty(b);
      Repr := {this};
    }

    /** Install four new leaves over the quadrants of the boundaries; the
        bucket is left as it is. */
    method Subdivide()
      requires Valid() && northWest == null
      modifies this
      ensures Valid() && fresh(Repr - old(Repr))
      ensures points == old(points) && northWest != null
      ensures Model == QuadTreeModel.Subdivide(old(Model))
    {
      var nw, ne, se, sw := NewQuadrants(boundaries);
      northWest, northEast, southEast, southWest, Repr, Model :=
        nw, ne, se, sw, Repr + {nw, ne, se, sw}, QuadTreeModel.Subdivide(Model);
    }

    /** Four new, distinct leaves over the quadrants of b. */
    static method NewQuadrants(b: Rect) returns (nw: PointQuadTree<T>, ne: PointQuadTree<T>, se: PointQuadTree<T>, sw: PointQuadTree<T>)
      ensures fresh(nw) && fresh(ne) && fresh(se) && fresh(sw)
      ensures nw.Valid() && ne.Valid() && se.Valid() && sw.Valid()
      ensures nw.Repr == {nw} && ne.Repr == {ne} && se.Repr == {se} && sw.Repr == {sw}
      ensures nw != ne && nw != se && nw != sw && ne != se && ne != sw && se != sw
      ensures nw.Model == Empty(b.Quadrant(NorthWest)) && ne.Model == Empty(b.Quadrant(NorthEast))
      ensures se.Model == Empty(b.Quadrant(SouthEast)) && sw.Model == Empty(b.Quadrant(SouthWest))
    {
      sw := new PointQuadTree(b.Quadrant(SouthWest));
      se := new PointQuadTree(b.Quadrant(SouthEast));
      nw := new PointQuadTree(b.Quadrant(NorthWest));
      ne := new PointQuadTree(b.Quadrant(NorthEast));
    }

    /** Insert an entry: false, and nothing changes, when its point is outside
        the boundaries; otherwise append it to the bucket while there is room,
        else split once and hand it to the children in the order north-west,
        north-east, south-east, south-west. */
    method Insert(e: DataNode<T>) returns (ok: bool)
      requires Valid()
      modifies Repr
      ensures Valid() && fresh(Repr - old(Repr))
      ensures (Model, ok) == QuadTreeModel.Insert(old(Model), e)
      ensures WellFormed(old(Model)) ==> WellFormed(Model)
      decreases InsertDepth(Model), 2
    {
      if WellFormed(Model) {
        InsertPreservesWellFormed(Model, e);
      }
      if !boundaries.Contains(e.point) {
        return false;
      }
      if |points| < MaxCapacity {
        points, Model := points + [e], Model.(bucket := points + [e]);
        return true;
      }
      if northWest == null {
        Subdivide();
      }
      assert Model == Opened(old(Model));
      ok := Delegate(e);
    }

    /** Offer e to the children in the order north-west, north-east,
        south-east, south-west, stopping at the first that accepts it. */
    method Delegate(e: DataNode<T>) returns (ok: bool)
      requires Valid() && northWest != null
      modifies Repr
      ensures Valid() && fresh(Repr - old(Repr))
      ensures (Model, ok) == QuadTreeModel.Delegate(old(Model), e)
      decreases InsertDepth(Model), 1
    {
      ok := IntoNorthWest(e);
      if ok {
        return;
      }
      ok := IntoNorthEast(e);
      if ok {
        return;
      }
      ok := IntoSouthEast(e);
      if ok {
        return;
      }
      ok := IntoSouthWest(e);
    }

    /** One step of the delegation: the child in one direction inserts e,
        and this node's ghost state takes in the child's new state. There is
        one such method per direction, as the source makes one call per
        child. */
    method IntoNorthWest(e: DataNode<T>) returns (ok: bool)
      requires Valid() && northWest != null
      modifies Repr
      ensures Valid() && fresh(Repr - old(Repr))
      ensures northWest != null
      ensures (Model, ok) == QuadTreeModel.InsertIntoChild(old(Model), NorthWest, e)
      decreases InsertDepth(Model.nw) + 1, 0
    {
      ok := northWest.Insert(e);
      Repr, Model := Repr + northWest.Repr, Model.(nw := northWest.Model);
    }

    method IntoNorthEast(e: DataNode<T>) returns (ok: bool)
      requires Valid() && northWest != null
      modifies Repr
      ensures Valid() && fresh(Repr - old(Repr))
      ensures northWest != null
      ensures (Model, ok) == QuadTreeModel.InsertIntoChild(old(Model), NorthEast, e)
      decreases InsertDepth(Model.ne) + 1, 0
    {
      ok := northEast.Insert(e);
      Repr, Model := Repr + northEast.Repr, Model.(ne := northEast.Model);
    }

    method IntoSouthEast(e: DataNode<T>) returns (ok: bool)
      requires Valid() && northWest != null
      modifies Repr
      ensures Valid() && fresh(Repr - old(Repr))
      ensures northWest != null
      ensures (Model, ok) == QuadTreeModel.InsertIntoChild(old(Model), SouthEast, e)
      decreases InsertDepth(Model.se) + 1, 0
    {
      ok := southEast.Insert(e);
      Repr, Model := Repr + southEast.Repr, Model.(se := southEast.Model);
    }

    method IntoSouthWest(e: DataNode<T>) returns (ok: bool)
      requires Valid() && northWest != null
      modifies Repr
      ensures Valid() && fresh(Repr - old(Repr))
      ensures northWest != null
      ensures (Model, ok) == QuadTreeModel.InsertIntoChild(old(Model), SouthWest, e)
      decreases InsertDepth(Model.sw) + 1, 0
    {
      ok := southWest.Insert(e);
      Repr, Model := Repr + southWest.Repr, Model.(sw := southWest.Model);
    }

    /** All stored entries whose points lie in range: the bucket's first, then
        the north-east, north-west, south-east and south-west subtrees'. */
    method QueryRange(range: Rect) returns (results: seq<DataNode<T>>)
      requires Valid()
      ensures results == Query(Model, range)
      ensures WellFormed(Model) ==> results == Filter(Entries(Model), range)
    {
      results := [];
      results := QueryRangeRecursive(range, results);
      if WellFormed(Model) {
        QueryIsFilteredEntries(Model, range);
      }
    }

    /** Append to result this subtree's entries in range; a subtree whose
        boundaries miss the range is skipped whole. */
    method QueryRangeRecursive(range: Rect, result: seq<DataNode<T>>) returns (out: seq<DataNode<T>>)
      requires Valid()
      ensures out == result + Query(Model, range)
      decreases Repr
    {
      out := result;
      if !boundaries.Intersects(range) {
        return;
      }
      for i := 0 to |points|
        invariant out == result + Filter(points[..i], range)
      {
        ghost var before := Filter(points[..i], range);
        assert points[..i + 1][..i] == points[..i];
        if range.Contains(points[i].point) {
          out := out + [points[i]];
          AppendAssoc(result, before, [points[i]]);
        }
      }
      assert points[..|points|] == points;
      if northEast == null {
        return;
      }
      ghost var acc := Filter(points, range);
      out := northEast.QueryRangeRecursive(range, out);
      AppendAssoc(result, acc, Query(Model.ne, range));
      acc := acc + Query(Model.ne, range);
      out := northWest.QueryRangeRecursive(range, out);
      AppendAssoc(result, acc, Query(Model.nw, range));
      acc := acc + Query(Model.nw, range);
      out := southEast.QueryRangeRecursive(range, out);
      AppendAssoc(result, acc, Query(Model.se, range));
      acc := acc + Query(Model.se, range);
      out := southWest.QueryRangeRecursive(range, out);
      AppendAssoc(result, acc, Query(Model.sw, range));
    }
  }

  lemma AppendAssoc<X>(a: seq<X>, b: seq<X>, c: seq<X>)
    ensures a + b + c == a + (b + c)
  {
  }
}
