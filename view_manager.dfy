/**
 * modules/QGraphicsViewManager.py: the list of nodes on the canvas, the
 * placement scan that snaps a new node onto the nodes it overlaps, the
 * polyline of edges derived from the node order, and the position queries
 * used by clicks, selection and the solver.
 */
module ViewManagement {
  import opened Options
  import opened Geometry
  import opened Core
  import opened Utils

  // ---------------------------------------------------------------------
  // Node and edge lists seen as values

  /** The positions of a list of nodes, in list order. */
  function Positions(ns: seq<Knoten>): (ps: seq<Point>)
    reads ns
    ensures |ps| == |ns| && forall i | 0 <= i < |ns| :: ps[i] == ns[i].pos
  {
    seq(|ns|, i reads ns requires 0 <= i < |ns| => ns[i].pos)
  }

  /** The positions of a joined node list are the two lists' positions, joined. */
  lemma PositionsAppend(a: seq<Knoten>, b: seq<Knoten>)
    ensures Positions(a + b) == Positions(a) + Positions(b)
  {
    assert forall i | 0 <= i < |a + b| :: Positions(a + b)[i] == (Positions(a) + Positions(b))[i];
  }

  /** The nodes an edge list refers to. */
  function LineNodes(ls: seq<Kante>): set<Knoten>
  {
    (set l | l in ls :: l.pos1) + (set l | l in ls :: l.pos2)
  }

  /** The endpoint positions of a list of edges, in list order. */
  function Ends(ls: seq<Kante>): (es: seq<(Point, Point)>)
    reads LineNodes(ls)
    ensures |es| == |ls| && forall i | 0 <= i < |ls| :: es[i] == (ls[i].pos1.pos, ls[i].pos2.pos)
  {
    seq(|ls|, i reads LineNodes(ls) requires 0 <= i < |ls| => (ls[i].pos1.pos, ls[i].pos2.pos))
  }

  /** The end positions of a joined edge list are the two lists' end positions, joined. */
  lemma EndsAppend(a: seq<Kante>, b: seq<Kante>)
    ensures Ends(a + b) == Ends(a) + Ends(b)
  {
    assert forall i | 0 <= i < |a + b| :: Ends(a + b)[i] == (Ends(a) + Ends(b))[i];
  }

  /** Every endpoint of every edge is a newly allocated node. */
  twostate predicate FreshLines(new ls: seq<Kante>)
  {
    forall l | l in ls :: fresh(l.pos1) && fresh(l.pos2)
  }

  // ---------------------------------------------------------------------
  // The placement scan

  /** One step of the scan: a point whose box overlaps q's box is moved onto q. */
  function SnapStep(p: Point, q: Point): Point
  {
    if Collide(p, q) then q else p
  }

  /**
   * The placement scan over qs in order. The scan does not stop at the first
   * overlap: every later node is tested against the point as moved so far.
   */
  function Snap(p: Point, qs: seq<Point>): Point
    decreases |qs|
  {
    if qs == [] then p else SnapStep(Snap(p, qs[..|qs| - 1]), qs[|qs| - 1])
  }

  /** The scan ends on qs[k]: it moved onto qs[k] and no later node overlaps qs[k]. */
  predicate LastSnapAt(p: Point, qs: seq<Point>, k: int)
  {
    && 0 <= k < |qs|
    && Snap(p, qs) == qs[k]
    && Collide(Snap(p, qs[..k]), qs[k])
    && forall j | k < j < |qs| :: !Collide(qs[k], qs[j])
  }

  /**
   * A point that overlaps no node stays where it is; a point that overlaps some
   * node ends on the last node of the scan that overlapped it at its turn.
   */
  lemma {:induction false} SnapCases(p: Point, qs: seq<Point>)
    ensures (forall j | 0 <= j < |qs| :: !Collide(p, qs[j])) ==> Snap(p, qs) == p
    ensures (exists j | 0 <= j < |qs| :: Collide(p, qs[j])) ==> exists k :: LastSnapAt(p, qs, k)
    decreases |qs|
  {
    if qs != [] {
      var n := |qs|;
      var pre := qs[..n - 1];
      SnapCases(p, pre);
      var r := Snap(p, pre);
      if Collide(r, qs[n - 1]) {
        assert LastSnapAt(p, qs, n - 1);
      } else if exists j | 0 <= j < n - 1 :: Collide(p, pre[j]) {
        var k :| LastSnapAt(p, pre, k);
        assert pre[..k] == qs[..k];
        assert LastSnapAt(p, qs, k);
      }
    }
  }

  /** The scan only ever lands on the starting point or on one of the nodes. */
  lemma {:induction false} SnapLands(p: Point, qs: seq<Point>)
    ensures Snap(p, qs) == p || Snap(p, qs) in qs
    decreases |qs|
  {
    if qs != [] {
      SnapLands(p, qs[..|qs| - 1]);
    }
  }

  /** Scanning a concatenation is scanning the parts one after the other. */
  lemma {:induction false} SnapAppend(p: Point, a: seq<Point>, b: seq<Point>)
    ensures Snap(p, a + b) == Snap(Snap(p, a), b)
    decreases |b|
  {
    if b == [] {
      assert a + b == a;
    } else {
      SnapAppend(p, a, b[..|b| - 1]);
      assert (a + b)[..|a + b| - 1] == a + b[..|b| - 1];
    }
  }

  /**
   * Because the scan does not stop, a chain of nodes 9 pixels apart drags the
   * point onto a node its own box never overlapped.
   */
  lemma SnapDriftsAlongChains()
    ensures Collide(Point(0, 0), Point(9, 0)) && !Collide(Point(0, 0), Point(18, 0))
    ensures Snap(Point(0, 0), [Point(9, 0), Point(18, 0)]) == Point(18, 0)
  {
    assert [Point(9, 0), Point(18, 0)][..1] == [Point(9, 0)];
  }

  // ---------------------------------------------------------------------
  // Edges and position queries

  /** The edges get_lines derives from the node order: edge k runs from node k + 1 to node k. */
  function Polyline(ps: seq<Point>): (es: seq<(Point, Point)>)
    ensures |es| == if ps == [] then 0 else |ps| - 1
    ensures forall k | 0 <= k < |es| :: es[k] == (ps[k + 1], ps[k])
  {
    if ps == [] then [] else seq(|ps| - 1, k requires 0 <= k < |ps| - 1 => (ps[k + 1], ps[k]))
  }

  /** Both ends of every derived edge are node positions. */
  lemma PolylineEndsAreNodes(ps: seq<Point>)
    ensures forall e | e in Polyline(ps) :: e.0 in ps && e.1 in ps
  {
    forall e | e in Polyline(ps)
      ensures e.0 in ps && e.1 in ps
    {
      var k :| 0 <= k < |Polyline(ps)| && Polyline(ps)[k] == e;
      assert ps[k + 1] == e.0 && ps[k] == e.1;
    }
  }

  /** The first position whose box overlaps the box at c, if any. */
  function FirstOverlap(c: Point, ps: seq<Point>): (r: Option<nat>)
    ensures r.Some? ==> r.value < |ps| && Collide(c, ps[r.value]) && forall j | 0 <= j < r.value :: !Collide(c, ps[j])
    ensures r.None? ==> forall j | 0 <= j < |ps| :: !Collide(c, ps[j])
  {
    if ps == [] then None
    else if Collide(c, ps[0]) then Some(0)
    else match FirstOverlap(c, ps[1..])
      case None => None
      case Some(i) => Some(i + 1)
  }

  /** The nodes whose box overlaps the box at c, in list order. */
  function ObjectsOn(c: Point, ns: seq<Knoten>): (r: seq<Knoten>)
    reads ns
    ensures forall k | k in r :: k in ns && Collide(c, k.pos)
    ensures forall i | 0 <= i < |ns| && Collide(c, ns[i].pos) :: ns[i] in r
    ensures |r| <= |ns|
    decreases |ns|
  {
    if ns == [] then []
    else
      var last := ns[|ns| - 1];
      ObjectsOn(c, ns[..|ns| - 1]) + (if Collide(c, last.pos) then [last] else [])
  }

  /** ObjectsOn keeps list order: its nodes sit at strictly increasing indices of ns. */
  lemma {:induction false} ObjectsOnInOrder(c: Point, ns: seq<Knoten>) returns (idx: seq<nat>)
    ensures |idx| == |ObjectsOn(c, ns)|
    ensures forall k | 0 <= k < |idx| :: idx[k] < |ns| && ObjectsOn(c, ns)[k] == ns[idx[k]]
    ensures forall k, l | 0 <= k < l < |idx| :: idx[k] < idx[l]
    decreases |ns|
  {
    if ns == [] {
      idx := [];
    } else {
      var n := |ns| - 1;
      var init := ObjectsOnInOrder(c, ns[..n]);
      idx := init + if Collide(c, ns[n].pos) then [n] else [];
    }
  }

  /** The index of the first position equal to p; None when p is not among them. */
  function IndexOf(p: Point, ps: seq<Point>): (r: Option<nat>)
    ensures r.Some? ==> r.value < |ps| && ps[r.value] == p && forall j | 0 <= j < r.value :: ps[j] != p
    ensures r.None? <==> p !in ps
  {
    if ps == [] then None
    else if ps[0] == p then Some(0)
    else match IndexOf(p, ps[1..])
      case None => None
      case Some(i) => Some(i + 1)
  }

  /** The canvas: the nodes in insertion order and the edges last derived from them. */
  class GraphicsViewManager {
    var objects: seq<Knoten>
    var lines: seq<Kante>

    constructor ()
      ensures objects == [] && lines == []
    {
      objects := [];
      lines := [];
    }

    /**
     * A click in drawing mode: a node is created at the cursor less 5 pixels on
     * each axis, moved by the placement scan over all existing nodes, appended,
     * and the edges are derived anew.
     */
    method AddPoint(c: Point)
      modifies this
      ensures |objects| == |old(objects)| + 1 && objects[..|old(objects)|] == old(objects)
      ensures fresh(objects[|objects| - 1])
      ensures !objects[|objects| - 1].isStart && !objects[|objects| - 1].isEnd
      ensures Positions(objects) == old(Positions(objects)) + [Snap(Point(c.x - 5, c.y - 5), old(Positions(objects)))]
      ensures Ends(lines) == Polyline(Positions(objects)) && FreshLines(lines)
    {
      var others := objects;
      ghost var ps := Positions(others);
      var point := PlacePoint(Point(c.x - 5, c.y - 5), others);
      assert Positions(others) == ps;
      objects := others + [point];
      assert objects[..|others|] == others;
      assert Positions(objects) == ps + [point.pos];
      RedrawObjects();
    }

    /** A new unflagged node at base, moved by the placement scan over the nodes others. */
    method PlacePoint(base: Point, others: seq<Knoten>) returns (point: Knoten)
      ensures fresh(point) && !point.isStart && !point.isEnd
      ensures point.pos == Snap(base, Positions(others))
    {
      ghost var ps := Positions(others);
      point := new Knoten(base);
      for i := 0 to |others|
        invariant fresh(point) && !point.isStart && !point.isEnd
        invariant point.pos == Snap(base, ps[..i])
        modifies point
      {
        var other := others[i];
        if RectangleCollide(NodeOperand(point), NodeOperand(other)) {
          point.SetX(other.X());
          point.SetY(other.Y());
        }
        assert ps[..i + 1][..i] == ps[..i];
      }
      assert ps[..|others|] == ps;
    }

    /** One edge per consecutive pair of nodes, joining fresh copies of the two nodes. */
    method GetLines() returns (ls: seq<Kante>)
      ensures Ends(ls) == Polyline(Positions(objects)) && FreshLines(ls)
    {
      ls := [];
      var objs := objects;
      ghost var ps := Positions(objs);
      for i := 0 to |objs|
        invariant FreshLines(ls)
        invariant Ends(ls) == Polyline(ps[..i])
      {
        if i > 0 {
          var a := new Knoten(Point(objs[i].X(), objs[i].Y()));
          var b := new Knoten(Point(objs[i - 1].X(), objs[i - 1].Y()));
          ls := ls + [Kante(a, b)];
        }
        assert ps[..i + 1][..i] == ps[..i];
      }
      assert ps[..|objs|] == ps;
    }

    /** The node a selection click at c hits: the first one whose box overlaps the box at c. */
    method GetClickedObject(c: Point) returns (r: Option<Knoten>)
      ensures r == (match FirstOverlap(c, Positions(objects))
        case None => None
        case Some(i) => Some(objects[i]))
    {
      var objs := objects;
      ghost var ps := Positions(objs);
      for i := 0 to |objs|
        invariant FirstOverlap(c, ps[..i]) == None
      {
        if RectangleCollide(PairOperand(c.x, c.y), NodeOperand(objs[i])) {
          return Some(objs[i]);
        }
      }
      return None;
    }

    /** All nodes whose box overlaps the box at c, in list order. */
    method GetAllObjectsOnPos(c: Point) returns (r: seq<Knoten>)
      ensures r == ObjectsOn(c, objects)
    {
      r := [];
      var objs := objects;
      for i := 0 to |objs|
        invariant r == ObjectsOn(c, objs[..i])
      {
        if RectangleCollide(PairOperand(c.x, c.y), PairOperand(objs[i].X(), objs[i].Y())) {
          r := r + [objs[i]];
        }
        assert objs[..i + 1][..i] == objs[..i];
      }
      assert objs[..|objs|] == objs;
    }

    /** find_object: the index of the first node exactly at the position of pos. */
    method FindObject(pos: Knoten, points: seq<Knoten>) returns (r: Option<nat>)
      ensures r == IndexOf(pos.pos, Positions(points))
    {
      ghost var ps := Positions(points);
      for i := 0 to |points|
        invariant IndexOf(pos.pos, ps[..i]) == None
      {
        if pos.X() == points[i].X() && pos.Y() == points[i].Y() {
          return Some(i);
        }
      }
      return None;
    }

    /** Clears and redraws the scene; of this only the new edge list is modelled. */
    method RefreshScene()
      modifies this`lines
      ensures Ends(lines) == Polyline(Positions(objects)) && FreshLines(lines)
    {
      RedrawObjects();
    }

    /** Derives the edges anew from the current node order. */
    method RedrawObjects()
      modifies this`lines
      ensures Ends(lines) == Polyline(Positions(objects)) && FreshLines(lines)
      ensures Positions(objects) == old(Positions(objects))
      ensures forall i | 0 <= i < |objects| ::
        objects[i].isStart == old(objects[i].isStart) && objects[i].isEnd == old(objects[i].isEnd)
    {
      lines := GetLines();
    }
  }
}
