/**
 * modules/MoveAgent.py: the nodes under the cursor are selected, and a drag
 * moves every selected node to the cursor and then through the same placement
 * scan over the canvas that a click uses.
 */
module Movement {
  import opened Geometry
  import opened Core
  import opened Utils
  import opened ViewManagement

  /** Where each node stands. */
  type Layout = map<Knoten, Point>

  /** The current positions of the given nodes. */
  function LayoutOf(ns: seq<Knoten>): (l: Layout)
    reads ns
    ensures forall n | n in l :: n in ns
    ensures forall n | n in ns :: n in l
    ensures forall n | n in ns :: l[n] == n.pos
  {
    map n | n in ns :: n.pos
  }

  /**
   * The scan of one moved node obj starting at p over the canvas list others,
   * every other node standing where l says. A list entry that is obj itself
   * is tested at obj's own current position.
   */
  function ScanFor(p: Point, obj: Knoten, others: seq<Knoten>, l: Layout): Point
    requires forall n | n in others :: n in l
    decreases |others|
  {
    if others == [] then p
    else
      var q := ScanFor(p, obj, others[..|others| - 1], l);
      var o := others[|others| - 1];
      SnapStep(q, if o == obj then q else l[o])
  }

  /** The positions of the canvas entries other than obj, in list order. */
  function OtherPositions(obj: Knoten, others: seq<Knoten>, l: Layout): (qs: seq<Point>)
    requires forall n | n in others :: n in l
    ensures forall q | q in qs :: exists o | o in others :: o != obj && q == l[o]
    decreases |others|
  {
    if others == [] then []
    else
      var o := others[|others| - 1];
      OtherPositions(obj, others[..|others| - 1], l) + (if o == obj then [] else [l[o]])
  }

  /** Testing a node against itself never moves it, so the scan is the plain placement scan over the other nodes. */
  lemma {:induction false} ScanForSkipsSelf(p: Point, obj: Knoten, others: seq<Knoten>, l: Layout)
    requires forall n | n in others :: n in l
    ensures ScanFor(p, obj, others, l) == Snap(p, OtherPositions(obj, others, l))
    decreases |others|
  {
    if others != [] {
      var pre := others[..|others| - 1];
      var o := others[|others| - 1];
      ScanForSkipsSelf(p, obj, pre, l);
      var q := ScanFor(p, obj, pre, l);
      if o == obj {
        CollideReflexive(q);
        assert ScanFor(p, obj, others, l) == SnapStep(q, q) == q;
        assert OtherPositions(obj, others, l) == OtherPositions(obj, pre, l) + [];
        assert OtherPositions(obj, pre, l) + [] == OtherPositions(obj, pre, l);
      } else {
        SnapAppend(p, OtherPositions(obj, pre, l), [l[o]]);
      }
    }
  }

  /** A moved node ends at its starting point or on some other node's position. */
  lemma ScanForLands(p: Point, obj: Knoten, others: seq<Knoten>, l: Layout)
    requires forall n | n in others :: n in l
    ensures var r := ScanFor(p, obj, others, l);
      r == p || exists o | o in others :: o != obj && r == l[o]
  {
    ScanForSkipsSelf(p, obj, others, l);
    SnapLands(p, OtherPositions(obj, others, l));
  }

  /**
   * The layout after moving the selected nodes one after another; each scan
   * sees the nodes moved before it at their new positions.
   */
  function MoveAll(base: Point, sel: seq<Knoten>, objs: seq<Knoten>, l: Layout): (r: Layout)
    requires forall n | n in sel :: n in l
    requires forall n | n in objs :: n in l
    ensures r.Keys == l.Keys
    decreases |sel|
  {
    if sel == [] then l
    else
      var r := MoveAll(base, sel[..|sel| - 1], objs, l);
      var obj := sel[|sel| - 1];
      r[obj := ScanFor(base, obj, objs, r)]
  }

  /** A node that is not selected keeps its position. */
  lemma {:induction false} MoveAllKeepsUnselected(base: Point, sel: seq<Knoten>, objs: seq<Knoten>, l: Layout, n: Knoten)
    requires forall m | m in sel :: m in l
    requires forall m | m in objs :: m in l
    requires n in l && n !in sel
    ensures MoveAll(base, sel, objs, l)[n] == l[n]
    decreases |sel|
  {
    if sel != [] {
      MoveAllKeepsUnselected(base, sel[..|sel| - 1], objs, l, n);
    }
  }

  /** After a drag every node stands where some node stood before, or at the cursor less 5 pixels. */
  lemma {:induction false} MoveAllLands(base: Point, sel: seq<Knoten>, objs: seq<Knoten>, l: Layout)
    requires forall m | m in sel :: m in l
    requires forall m | m in objs :: m in l
    ensures MoveAll(base, sel, objs, l).Values <= l.Values + {base}
    decreases |sel|
  {
    if sel != [] {
      var pre := sel[..|sel| - 1];
      var obj := sel[|sel| - 1];
      MoveAllLands(base, pre, objs, l);
      var r := MoveAll(base, pre, objs, l);
      ScanForLands(base, obj, objs, r);
      var s := ScanFor(base, obj, objs, r);
      assert s in l.Values + {base} by {
        if s != base {
          var o :| o in objs && o != obj && s == r[o];
          assert r[o] in r.Values;
        }
      }
      var r' := r[obj := s];
      forall v | v in r'.Values
        ensures v in l.Values + {base}
      {
        var n :| n in r' && r'[n] == v;
        if n != obj {
          assert r[n] in r.Values;
        }
      }
    }
  }

  /** The selection of the drag tool and the canvas it moves nodes on. */
  class MoveAgent {
    var selectedObjects: seq<Knoten>
    const qgvm: GraphicsViewManager

    /** Nothing selected. */
    constructor (qgvm: GraphicsViewManager)
      ensures selectedObjects == [] && this.qgvm == qgvm
    {
      selectedObjects := [];
      this.qgvm := qgvm;
    }

    /** Selects every node whose box overlaps a box at the cursor. */
    method SelectObjects(c: Point)
      modifies this`selectedObjects
      ensures selectedObjects == ObjectsOn(c, qgvm.objects)
    {
      selectedObjects := qgvm.GetAllObjectsOnPos(c);
    }

    /**
     * Moves each selected node in turn to the cursor less 5 pixels and then
     * onto every canvas node it overlaps, in canvas order; the edges are then
     * derived anew.
     */
    method MoveSelectedObjects(c: Point)
      modifies selectedObjects`pos, qgvm`lines
      ensures qgvm.objects == old(qgvm.objects)
      ensures forall n | n in selectedObjects + qgvm.objects ::
        n.pos == MoveAll(Point(c.x - 5, c.y - 5), selectedObjects, qgvm.objects,
                         old(LayoutOf(selectedObjects + qgvm.objects)))[n]
      ensures Ends(qgvm.lines) == Polyline(Positions(qgvm.objects)) && FreshLines(qgvm.lines)
    {
      MoveNodes(selectedObjects, qgvm.objects, Point(c.x - 5, c.y - 5));
      qgvm.RefreshScene();
    }

    /** The moving part of a drag: each node of sel in turn is placed from base over the canvas list objs. */
    method MoveNodes(sel: seq<Knoten>, objs: seq<Knoten>, base: Point)
      modifies sel`pos
      ensures forall n | n in sel + objs :: n.pos == MoveAll(base, sel, objs, old(LayoutOf(sel + objs)))[n]
    {
      ghost var all := sel + objs;
      ghost var l0 := LayoutOf(all);
      for k := 0 to |sel|
        invariant forall n | n in all :: n.pos == MoveAll(base, sel[..k], objs, l0)[n]
      {
        var obj: Knoten := sel[k];
        ghost var lk := MoveAll(base, sel[..k], objs, l0);
        PlaceMoved(obj, base, objs, lk);
        assert sel[..k + 1][..k] == sel[..k];
      }
      assert sel[..|sel|] == sel;
    }

    /**
     * Puts obj at base, then runs it through the placement scan over objs,
     * every other node standing where lk says.
     */
    method PlaceMoved(obj: Knoten, base: Point, objs: seq<Knoten>, ghost lk: Layout)
      requires forall n | n in objs :: n in lk
      requires forall n | n in objs && n != obj :: n.pos == lk[n]
      modifies obj`pos
      ensures obj.pos == ScanFor(base, obj, objs, lk)
    {
      obj.SetX(base.x);
      obj.SetY(base.y);
      for j := 0 to |objs|
        invariant obj.pos == ScanFor(base, obj, objs[..j], lk)
      {
        var other := objs[j];
        if RectangleCollide(NodeOperand(obj), NodeOperand(other)) {
          obj.SetX(other.X());
          obj.SetY(other.Y());
        }
        assert objs[..j + 1][..j] == objs[..j];
      }
      assert objs[..|objs|] == objs;
    }
  }
}
