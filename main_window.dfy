/**
 * main_window.py: the editor window's state and the handlers wired to its
 * buttons and mouse events. The widgets themselves are not modelled: a click
 * is its cursor point, a file dialog is the file it yields, and the random
 * draws of graph generation are parameters.
 */
module MainWindow {
  import opened Options
  import opened Geometry
  import opened Core
  import opened ViewManagement
  import opened Graph
  import opened ShortestPath
  import opened Solver
  import opened Generator
  import opened Files

  /** The start and end flags of one node. */
  datatype Marks = Marks(isStart: bool, isEnd: bool)

  /** The flags of each node, in canvas order. */
  function MarksOf(ns: seq<Knoten>): (ms: seq<Marks>)
    reads ns
    ensures |ms| == |ns| && forall i | 0 <= i < |ns| :: ms[i] == Marks(ns[i].isStart, ns[i].isEnd)
  {
    seq(|ns|, i reads ns requires 0 <= i < |ns| => Marks(ns[i].isStart, ns[i].isEnd))
  }

  /** The index of the last entry flagged start. */
  function LastStartMark(ms: seq<Marks>): (r: Option<nat>)
    ensures r.Some? ==> r.value < |ms| && ms[r.value].isStart && forall j | r.value < j < |ms| :: !ms[j].isStart
    ensures r.None? ==> forall j | 0 <= j < |ms| :: !ms[j].isStart
  {
    if ms == [] then None
    else if ms[|ms| - 1].isStart then Some(|ms| - 1)
    else LastStartMark(ms[..|ms| - 1])
  }

  /** The index of the last entry flagged end and not start: an entry flagged both counts as a start only. */
  function LastEndMark(ms: seq<Marks>): (r: Option<nat>)
    ensures r.Some? ==> r.value < |ms| && ms[r.value].isEnd && !ms[r.value].isStart
    ensures r.Some? ==> forall j | r.value < j < |ms| :: !ms[j].isEnd || ms[j].isStart
    ensures r.None? ==> forall j | 0 <= j < |ms| :: !ms[j].isEnd || ms[j].isStart
  {
    if ms == [] then None
    else if !ms[|ms| - 1].isStart && ms[|ms| - 1].isEnd then Some(|ms| - 1)
    else LastEndMark(ms[..|ms| - 1])
  }

  /** The index of the last node flagged start. */
  function LastStart(ns: seq<Knoten>): (r: Option<nat>)
    reads ns
    ensures r.Some? ==> r.value < |ns| && ns[r.value].isStart && forall j | r.value < j < |ns| :: !ns[j].isStart
    ensures r.None? ==> forall j | 0 <= j < |ns| :: !ns[j].isStart
  {
    LastStartMark(MarksOf(ns))
  }

  /** The index of the last node flagged end and not start: a node flagged both counts as a start only. */
  function LastEnd(ns: seq<Knoten>): (r: Option<nat>)
    reads ns
    ensures r.Some? ==> r.value < |ns| && ns[r.value].isEnd && !ns[r.value].isStart
    ensures r.Some? ==> forall j | r.value < j < |ns| :: !ns[j].isEnd || ns[j].isStart
    ensures r.None? ==> forall j | 0 <= j < |ns| :: !ns[j].isEnd || ns[j].isStart
  {
    LastEndMark(MarksOf(ns))
  }

  /** The end node is never the start node. */
  lemma StartIsNotEnd(ns: seq<Knoten>)
    requires LastStart(ns).Some? && LastEnd(ns).Some?
    ensures LastStart(ns).value != LastEnd(ns).value
  {
  }

  /** What a search reports: the nodes along the route, its distance and the count of neighbour entries scanned. */
  datatype Solution = Solution(path: seq<Knoten>, distance: Dist, nodesTraveled: nat)

  /** The two flag check boxes. */
  datatype CheckBox = StartCheck | EndCheck

  /** The two spin boxes of the generator settings. */
  datatype SpinBox = MaxNodeSpin | MaxConSpin

  class Editor {
    const qgvm: GraphicsViewManager
    const fileManager: FileManager
    var selectedObject: Option<Knoten>
    /** 0 while drawing nodes, 1 while selecting them. */
    var status: int
    var maxNodes: int
    var maxConnections: int

    /** The file manager works on the same canvas as the editor. */
    predicate Wired()
      reads this
    {
      fileManager.qgvm == qgvm
    }

    /** An empty canvas, drawing mode, nothing selected, at most 25 nodes and 3 connections per node. */
    constructor ()
      ensures fresh(qgvm) && qgvm.objects == [] && qgvm.lines == []
      ensures Wired()
      ensures selectedObject == None && status == 0
      ensures maxNodes == 25 && maxConnections == 3
    {
      var view := new GraphicsViewManager();
      qgvm := view;
      fileManager := new FileManager(view);
      selectedObject := None;
      status := 0;
      maxNodes := 25;
      maxConnections := 3;
    }

    /** Writes the canvas nodes, one record each, and returns the file. */
    method SaveFile() returns (file: seq<StoredRecord>)
      requires Wired()
      modifies fileManager`json
      ensures file == Export(Records(qgvm.objects))
      ensures Loaded(file) == Records(qgvm.objects)
    {
      file := fileManager.ConvertToJson();
      SaveThenLoad(qgvm.objects);
    }

    /**
     * Empties the canvas and loads the file into it; when every record is
     * complete the edges are derived anew, otherwise the load stops at the
     * first incomplete record and the old edges stay.
     */
    method OpenFile(file: seq<StoredRecord>) returns (complete: bool)
      requires Wired()
      modifies qgvm`objects, qgvm`lines
      ensures Records(qgvm.objects) == Loaded(file)
      ensures complete <==> |Loaded(file)| == |file|
      ensures complete ==> Ends(qgvm.lines) == Polyline(Positions(qgvm.objects)) && FreshLines(qgvm.lines)
      ensures !complete ==> qgvm.lines == old(qgvm.lines)
    {
      qgvm.objects := [];
      complete := fileManager.ConvertToList(file);
      assert qgvm.objects[0..] == qgvm.objects;
      if complete {
        qgvm.RedrawObjects();
      }
    }

    /**
     * A click at c: in drawing mode it drops the selection and appends a new,
     * unflagged node; in selection mode it selects the first node hit, if any.
     */
    method ClickHandler(c: Point)
      modifies this`selectedObject, qgvm
      ensures status == 0 ==>
        && selectedObject == None
        && |qgvm.objects| == |old(qgvm.objects)| + 1 && qgvm.objects[..|old(qgvm.objects)|] == old(qgvm.objects)
        && Positions(qgvm.objects) == old(Positions(qgvm.objects)) + [Snap(Point(c.x - 5, c.y - 5), old(Positions(qgvm.objects)))]
        && fresh(qgvm.objects[|qgvm.objects| - 1])
        && !qgvm.objects[|qgvm.objects| - 1].isStart && !qgvm.objects[|qgvm.objects| - 1].isEnd
        && Ends(qgvm.lines) == Polyline(Positions(qgvm.objects)) && FreshLines(qgvm.lines)
      ensures status != 0 ==> qgvm.objects == old(qgvm.objects) && qgvm.lines == old(qgvm.lines)
      ensures status == 1 ==> selectedObject == (match FirstOverlap(c, Positions(qgvm.objects))
        case None => old(selectedObject)
        case Some(i) => Some(qgvm.objects[i]))
      ensures status != 0 && status != 1 ==> selectedObject == old(selectedObject)
    {
      if status == 0 {
        ghost var ps := Positions(qgvm.objects);
        selectedObject := None;
        assert Positions(qgvm.objects) == ps;
        qgvm.AddPoint(c);
        assert selectedObject == None;
      } else if status == 1 {
        var obj := qgvm.GetClickedObject(c);
        if obj.Some? {
          selectedObject := obj;
        }
      }
    }

    /** Drops the selection and all nodes; the edge list is left as it was. */
    method ClearAll()
      modifies this`selectedObject, qgvm`objects
      ensures selectedObject == None && qgvm.objects == []
    {
      selectedObject := None;
      qgvm.objects := [];
    }

    method ChangeStatus(status: int)
      modifies this`status
      ensures this.status == status
    {
      this.status := status;
    }

    /** The selected node, as a set for frames: empty when nothing is selected. */
    function Selection(): set<Knoten>
      reads this
    {
      if selectedObject.Some? then {selectedObject.value} else {}
    }

    /**
     * Sets the selected node's start or end flag to the check box state and
     * derives the edges anew. With no node selected (after clear_all or
     * generate_graph the check boxes stay visible) the flag assignment raises
     * AttributeError: `raised` is set and nothing changes.
     */
    method ChangePointStatus(box: CheckBox, checked: bool) returns (raised: bool)
      modifies Selection()`isStart, Selection()`isEnd, qgvm`lines
      ensures raised <==> selectedObject.None?
      ensures raised ==> unchanged(qgvm)
      ensures !raised && box == StartCheck ==>
        selectedObject.value.isStart == checked && selectedObject.value.isEnd == old(selectedObject.value.isEnd)
      ensures !raised && box == EndCheck ==>
        selectedObject.value.isEnd == checked && selectedObject.value.isStart == old(selectedObject.value.isStart)
      ensures !raised ==> Ends(qgvm.lines) == Polyline(Positions(qgvm.objects)) && FreshLines(qgvm.lines)
    {
      if selectedObject.None? {
        return true;
      }
      raised := false;
      var node := selectedObject.value;
      if box == StartCheck {
        node.isStart := checked;
      } else {
        node.isEnd := checked;
      }
      qgvm.RefreshScene();
    }

    method ChangeGeneratorConfig(box: SpinBox, value: int)
      modifies this`maxNodes, this`maxConnections
      ensures box == MaxNodeSpin ==> maxNodes == value && maxConnections == old(maxConnections)
      ensures box == MaxConSpin ==> maxConnections == value && maxNodes == old(maxNodes)
    {
      if box == MaxNodeSpin {
        maxNodes := value;
      } else {
        maxConnections := value;
      }
    }

    /**
     * The last node flagged start and the last node flagged end (and not
     * start), each with its index; both absent unless both exist.
     */
    method SetStartEnd() returns (start: Option<(nat, Knoten)>, end: Option<(nat, Knoten)>)
      ensures LastStart(qgvm.objects).Some? && LastEnd(qgvm.objects).Some? ==>
        && start == Some((LastStart(qgvm.objects).value, qgvm.objects[LastStart(qgvm.objects).value]))
        && end == Some((LastEnd(qgvm.objects).value, qgvm.objects[LastEnd(qgvm.objects).value]))
      ensures LastStart(qgvm.objects).None? || LastEnd(qgvm.objects).None? ==> start == None && end == None
    {
      var objs := qgvm.objects;
      ghost var ms := MarksOf(objs);
      var s: Option<(nat, Knoten)> := None;
      var e: Option<(nat, Knoten)> := None;
      for i := 0 to |objs|
        invariant s.None? <==> LastStartMark(ms[..i]).None?
        invariant s.Some? ==> s.value.0 == LastStartMark(ms[..i]).value && s.value.1 == objs[s.value.0]
        invariant e.None? <==> LastEndMark(ms[..i]).None?
        invariant e.Some? ==> e.value.0 == LastEndMark(ms[..i]).value && e.value.1 == objs[e.value.0]
      {
        var node := objs[i];
        assert ms[..i + 1][..i] == ms[..i] && ms[..i + 1][i] == Marks(node.isStart, node.isEnd);
        if node.isStart {
          s := Some((i, node));
        } else if node.isEnd {
          e := Some((i, node));
        }
      }
      assert ms[..|objs|] == ms;
      if s.None? || e.None? {
        return None, None;
      }
      return s, e;
    }

    /**
     * Derives the edges anew and, when a start and an end node exist, builds
     * the neighbour table of the canvas and searches it from the start index
     * to the end index. The search reports a finite distance exactly when the
     * end is reachable, and then a least-weight route.
     */
    method InitializeSolution() returns (r: Option<Solution>, ghost route: seq<nat>, ghost popped: seq<nat>)
      modifies qgvm`lines
      ensures Ends(qgvm.lines) == Polyline(Positions(qgvm.objects)) && FreshLines(qgvm.lines)
      ensures r.Some? <==> LastStart(qgvm.objects).Some? && LastEnd(qgvm.objects).Some?
      ensures r.Some? ==>
        var ps := Positions(qgvm.objects);
        Solves(NeighborTable(ps, Polyline(ps)), LastStart(qgvm.objects).value, LastEnd(qgvm.objects).value,
               qgvm.objects, r.value, route, popped)
    {
      qgvm.RefreshScene();
      var start, end := SetStartEnd();
      if start.Some? && end.Some? {
        ghost var ms, ps := MarksOf(qgvm.objects), Positions(qgvm.objects);
        var solution;
        solution, route, popped := Solve(qgvm.objects, qgvm.lines, qgvm, start.value, end.value);
        assert MarksOf(qgvm.objects) == ms && Positions(qgvm.objects) == ps;
        r := Some(solution);
      } else {
        assert LastStart(qgvm.objects).None? || LastEnd(qgvm.objects).None?;
        r, route, popped := None, [], [];
      }
    }

    /**
     * Empties the canvas and fills it with a random graph: nodeCount nodes
     * (between 10 and maxNodes) at the drawn coordinates, each with the
     * deduplicated draws (between 1 and connCount of them, connCount between 1
     * and maxConnections) as its connections; the canvas receives both ends of
     * every generated edge, as unflagged copies.
     */
    method GenerateGraph(nodeCount: nat, connCount: int, coords: seq<Point>, draws: seq<seq<nat>>,
                         width: int, height: int)
      requires 10 <= nodeCount <= maxNodes && 1 <= connCount <= maxConnections
      requires |coords| == nodeCount
      requires forall i | 0 <= i < |coords| :: 10 <= coords[i].x <= width - 10 && 10 <= coords[i].y <= height - 10
      requires |draws| == nodeCount
      requires forall i | 0 <= i < |draws| :: 1 <= |draws[i]| <= connCount
      requires forall i, k | 0 <= i < |draws| && 0 <= k < |draws[i]| :: draws[i][k] < nodeCount
      modifies this`selectedObject, qgvm`objects, qgvm`lines
      ensures selectedObject == None
      ensures Positions(qgvm.objects) == Flatten(GenEdges(coords, DedupAll(draws)))
      ensures Unflagged(qgvm.objects)
      ensures Ends(qgvm.lines) == Polyline(Positions(qgvm.objects)) && FreshLines(qgvm.lines)
    {
      ClearAll();
      RunGenerator(nodeCount, connCount, coords, draws, width, height);
    }

    /** The generator steps of generate_graph, run on an emptied canvas. */
    method RunGenerator(nodeCount: nat, connCount: int, coords: seq<Point>, draws: seq<seq<nat>>,
                        width: int, height: int)
      requires 10 <= nodeCount <= maxNodes && 1 <= connCount <= maxConnections
      requires |coords| == nodeCount
      requires forall i | 0 <= i < |coords| :: 10 <= coords[i].x <= width - 10 && 10 <= coords[i].y <= height - 10
      requires |draws| == nodeCount
      requires forall i | 0 <= i < |draws| :: 1 <= |draws[i]| <= connCount
      requires forall i, k | 0 <= i < |draws| && 0 <= k < |draws[i]| :: draws[i][k] < nodeCount
      requires qgvm.objects == []
      modifies qgvm`objects, qgvm`lines
      ensures Positions(qgvm.objects) == Flatten(GenEdges(coords, DedupAll(draws)))
      ensures Unflagged(qgvm.objects)
      ensures Ends(qgvm.lines) == Polyline(Positions(qgvm.objects)) && FreshLines(qgvm.lines)
    {
      var generator := new GraphGenerator(nodeCount, connCount, qgvm, width, height);
      generator.GenerateNodes(coords);
      generator.SetConnections(draws);
      var nodes, conns := generator.nodes, generator.connections;
      CreateLinesReady(nodes, conns, draws);
      generator.CreateLines();
      assert Positions(nodes) == coords;
      var ls := generator.lines;
      assert ls[0..] == ls;
      ghost var es := Ends(ls);
      assert es == GenEdges(coords, DedupAll(draws));
      assert EndsUnflagged(ls) && Unflagged(qgvm.objects);
      assert Positions(qgvm.objects) == [];
      generator.InsertToGraphicsView();
      assert Positions(qgvm.objects) == Flatten(es);
      assert Unflagged(qgvm.objects);
      assert Ends(qgvm.lines) == Polyline(Positions(qgvm.objects));
      assert FreshLines(qgvm.lines);
    }
  }

  /**
   * sol answers the query from s to e over table, whose indices are positions
   * in points: a finite distance exactly when e is reachable, then the weight
   * of route, a least-weight walk, otherwise route is e alone; sol.path lists
   * the nodes of route. The count is the total row size of the pop order
   * popped, which starts at s, never holds e, is empty exactly when s is e,
   * holds every route node but e and, when e is unreachable, every node
   * reachable from s.
   */
  ghost predicate Solves(table: Table, s: nat, e: nat, points: seq<Knoten>, sol: Solution,
                         route: seq<nat>, popped: seq<nat>)
  {
    && (sol.distance.Fin? <==> !Unreachable(table, s, e))
    && (sol.distance.Fin? ==>
          && IsWalkFromTo(table, route, s, e)
          && Weight(table, route) == sol.distance.d
          && forall p | IsWalkFromTo(table, p, s, e) :: sol.distance.d <= Weight(table, p))
    && (sol.distance.Inf? ==> route == [e])
    && |sol.path| == |route|
    && (forall i | 0 <= i < |route| :: route[i] < |points| && sol.path[i] == points[route[i]])
    && (forall i | 0 <= i < |popped| :: popped[i] < |table| && popped[i] != e)
    && (popped == [] <==> s == e)
    && (popped != [] ==> popped[0] == s)
    && (sol.distance.Fin? ==> forall i | 0 <= i < |route| - 1 :: route[i] in popped)
    && (sol.distance.Inf? ==> forall v, p | IsWalkFromTo(table, p, s, v) :: v in popped)
    && sol.nodesTraveled == Scanned(table, popped)
  }

  /**
   * The solver steps of initialize_solution: a solver over the canvas nodes
   * and their freshly drawn edges takes the start and end entries, builds its
   * neighbour table and searches it.
   */
  method Solve(points: seq<Knoten>, lines: seq<Kante>, view: GraphicsViewManager,
               start: (nat, Knoten), end: (nat, Knoten))
    returns (sol: Solution, ghost route: seq<nat>, ghost popped: seq<nat>)
    requires start.0 < |points| && end.0 < |points|
    requires Ends(lines) == Polyline(Positions(points))
    ensures var ps := Positions(points); Solves(NeighborTable(ps, Polyline(ps)), start.0, end.0, points, sol, route, popped)
  {
    ghost var ps := Positions(points);
    ghost var es := Ends(lines);
    PolylineEndsAreNodes(ps);
    assert EndpointsFound(ps, es) by {
      forall j | 0 <= j < |es|
        ensures es[j].0 in ps && es[j].1 in ps
      {
        assert es[j] in Polyline(ps);
      }
    }
    var solver := new GraphSolver(points, lines, view);
    solver.ExtractEndNodes(start, end);
    assert Positions(points) == ps && Ends(lines) == es;
    assert solver.weights == seq(|points|, i => map[]);
    solver.SetNeighbors();
    ghost var table := NeighborTable(ps, es);
    assert solver.weights == table by {
      forall i | 0 <= i < |points|
        ensures solver.weights[i] == table[i]
      {
      }
    }
    NeighborTableWellFormed(ps, es);
    var path, distance, nodesTraveled;
    path, distance, nodesTraveled, route, popped := solver.SolveGraph();
    sol := Solution(path, distance, nodesTraveled);
  }

  /** The connection lists set_connections builds name only generated nodes. */
  lemma CreateLinesReady(nodes: seq<Knoten>, connections: seq<seq<nat>>, draws: seq<seq<nat>>)
    requires |draws| == |nodes| && connections == DedupAll(draws)
    requires forall i, k | 0 <= i < |draws| && 0 <= k < |draws[i]| :: draws[i][k] < |nodes|
    ensures |connections| == |nodes|
    ensures forall i, k | 0 <= i < |connections| && 0 <= k < |connections[i]| :: connections[i][k] < |nodes|
  {
    forall i, k | 0 <= i < |connections| && 0 <= k < |connections[i]|
      ensures connections[i][k] < |nodes|
    {
      assert connections[i][k] in Dedup(draws[i]);
    }
  }

  /** A generated canvas has no start and no end node, so no search runs on it until the user flags them. */
  lemma GeneratedCanvasHasNoEnds(ns: seq<Knoten>)
    requires Unflagged(ns)
    ensures LastStart(ns).None? && LastEnd(ns).None?
  {
  }
}
