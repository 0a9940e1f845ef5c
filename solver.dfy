/**
 * modules/GraphSolver.py: the weight table built from the edge list by
 * matching edge ends against node positions, and the heap-based shortest path
 * search over that table with the walk back along predecessor links.
 */
module Solver {
  import opened Options
  import opened Geometry
  import opened Core
  import opened ViewManagement
  import opened Graph
  import opened ShortestPath

  // ---------------------------------------------------------------------
  // The weight table

  /** Every edge end lies exactly on some node. */
  predicate EndpointsFound(ps: seq<Point>, es: seq<(Point, Point)>)
  {
    forall j | 0 <= j < |es| :: es[j].0 in ps && es[j].1 in ps
  }

  /**
   * Edge e makes k a neighbour of the node at p: its first end is at p and k is
   * the first node at its second end, or (only when the first end is elsewhere)
   * its second end is at p and k is the first node at its first end.
   */
  predicate LinkedBy(p: Point, ps: seq<Point>, e: (Point, Point), k: nat)
  {
    || (e.0 == p && IndexOf(e.1, ps) == Some(k))
    || (e.0 != p && e.1 == p && IndexOf(e.0, ps) == Some(k))
  }

  /** Some edge of es makes k a neighbour of the node at p. */
  predicate Adds(p: Point, ps: seq<Point>, es: seq<(Point, Point)>, k: nat)
  {
    exists j | 0 <= j < |es| :: LinkedBy(p, ps, es[j], k)
  }

  /** The inner loop of set_neighbors for the node at p, applied to an existing row. */
  function ScanLines(row: map<nat, nat>, p: Point, ps: seq<Point>, es: seq<(Point, Point)>): map<nat, nat>
    requires EndpointsFound(ps, es)
    decreases |es|
  {
    if es == [] then row
    else
      var r := ScanLines(row, p, ps, es[..|es| - 1]);
      var e := es[|es| - 1];
      if e.0 == p then r[IndexOf(e.1, ps).value := Distance(p, e.1)]
      else if e.1 == p then r[IndexOf(e.0, ps).value := Distance(p, e.0)]
      else r
  }

  /** The table set_neighbors builds from empty rows: row i belongs to node i. */
  function NeighborTable(ps: seq<Point>, es: seq<(Point, Point)>): Table
    requires EndpointsFound(ps, es)
  {
    seq(|ps|, i requires 0 <= i < |ps| => ScanLines(map[], ps[i], ps, es))
  }

  /**
   * The scan keeps the entries it is given and adds exactly the linked
   * neighbours, each weighted with the distance from p to that neighbour.
   */
  lemma ScanLinesSpec(row: map<nat, nat>, p: Point, ps: seq<Point>, es: seq<(Point, Point)>)
    requires EndpointsFound(ps, es)
    ensures forall k: nat :: k in ScanLines(row, p, ps, es) <==> k in row || Adds(p, ps, es, k)
    ensures forall k: nat | Adds(p, ps, es, k) :: k < |ps|
    ensures forall k: nat | k in ScanLines(row, p, ps, es) ::
      ScanLines(row, p, ps, es)[k] == if Adds(p, ps, es, k) then Distance(p, ps[k]) else row[k]
  {
    forall k: nat
      ensures k in ScanLines(row, p, ps, es) <==> k in row || Adds(p, ps, es, k)
      ensures Adds(p, ps, es, k) ==> k < |ps|
      ensures k in ScanLines(row, p, ps, es) ==>
        ScanLines(row, p, ps, es)[k] == if Adds(p, ps, es, k) then Distance(p, ps[k]) else row[k]
    {
      ScanLinesAt(row, p, ps, es, k);
    }
  }

  /** ScanLinesSpec for one key. */
  lemma {:induction false} ScanLinesAt(row: map<nat, nat>, p: Point, ps: seq<Point>, es: seq<(Point, Point)>, k: nat)
    requires EndpointsFound(ps, es)
    ensures k in ScanLines(row, p, ps, es) <==> k in row || Adds(p, ps, es, k)
    ensures Adds(p, ps, es, k) ==> k < |ps|
    ensures k in ScanLines(row, p, ps, es) ==>
      ScanLines(row, p, ps, es)[k] == if Adds(p, ps, es, k) then Distance(p, ps[k]) else row[k]
    decreases |es|
  {
    if es != [] {
      var n := |es|;
      var pre := es[..n - 1];
      assert EndpointsFound(ps, pre) by {
        forall j | 0 <= j < |pre| ensures pre[j].0 in ps && pre[j].1 in ps {
          assert pre[j] == es[j];
        }
      }
      ScanLinesAt(row, p, ps, pre, k);
      AddsSplit(p, ps, es, k);
      var e := es[n - 1];
      assert e.0 in ps && e.1 in ps;
      if e.0 == p {
        var m := IndexOf(e.1, ps).value;
        assert ps[m] == e.1;
      } else if e.1 == p {
        var m := IndexOf(e.0, ps).value;
        assert ps[m] == e.0;
      }
    }
  }

  /** One more edge of the scan: the prefix through edge j extends the prefix before it by that edge. */
  lemma ScanLinesStep(row: map<nat, nat>, p: Point, ps: seq<Point>, es: seq<(Point, Point)>, j: nat)
    requires EndpointsFound(ps, es) && j < |es|
    ensures EndpointsFound(ps, es[..j]) && EndpointsFound(ps, es[..j + 1])
    ensures es[j].0 in ps && es[j].1 in ps
    ensures var r := ScanLines(row, p, ps, es[..j]);
      ScanLines(row, p, ps, es[..j + 1]) ==
        if es[j].0 == p then r[IndexOf(es[j].1, ps).value := Distance(p, es[j].1)]
        else if es[j].1 == p then r[IndexOf(es[j].0, ps).value := Distance(p, es[j].0)]
        else r
  {
    assert es[..j + 1][..j] == es[..j];
    assert forall i | 0 <= i < j + 1 :: es[..j + 1][i] == es[i];
  }

  /** The neighbours added by a list of edges are those of all but the last, and those of the last. */
  lemma AddsSplit(p: Point, ps: seq<Point>, es: seq<(Point, Point)>, k: nat)
    requires es != []
    ensures Adds(p, ps, es, k) <==> Adds(p, ps, es[..|es| - 1], k) || LinkedBy(p, ps, es[|es| - 1], k)
  {
    var n := |es|;
    var pre := es[..n - 1];
    if Adds(p, ps, es, k) {
      var j :| 0 <= j < n && LinkedBy(p, ps, es[j], k);
      if j < n - 1 {
        assert pre[j] == es[j];
      }
    }
    if Adds(p, ps, pre, k) {
      var j :| 0 <= j < n - 1 && LinkedBy(p, ps, pre[j], k);
      assert es[j] == pre[j];
    }
  }

  /** Every neighbour index names a node. */
  lemma NeighborTableWellFormed(ps: seq<Point>, es: seq<(Point, Point)>)
    requires EndpointsFound(ps, es)
    ensures WellFormed(NeighborTable(ps, es)) && |NeighborTable(ps, es)| == |ps|
  {
    var t := NeighborTable(ps, es);
    forall i, k | 0 <= i < |t| && k in t[i]
      ensures k < |t|
    {
      ScanLinesSpec(map[], ps[i], ps, es);
      var j :| 0 <= j < |es| && LinkedBy(ps[i], ps, es[j], k);
    }
  }

  /**
   * A neighbour of node i is the first node at its position, sits at an end of
   * an edge whose other end is at node i, and weighs the distance between the
   * two positions.
   */
  lemma NeighborTableEntry(ps: seq<Point>, es: seq<(Point, Point)>, i: nat, k: nat)
    requires EndpointsFound(ps, es) && i < |ps|
    requires k in NeighborTable(ps, es)[i]
    ensures k < |ps| && IndexOf(ps[k], ps) == Some(k)
    ensures (ps[i], ps[k]) in es || (ps[k], ps[i]) in es
    ensures NeighborTable(ps, es)[i][k] == Distance(ps[i], ps[k])
  {
    ScanLinesSpec(map[], ps[i], ps, es);
    var j :| 0 <= j < |es| && LinkedBy(ps[i], ps, es[j], k);
  }

  /**
   * Edges can be walked both ways: when k is a neighbour of node i, the first
   * node at node i's position is a neighbour of k, at the same weight.
   */
  lemma NeighborTableSymmetric(ps: seq<Point>, es: seq<(Point, Point)>, i: nat, k: nat)
    requires EndpointsFound(ps, es) && i < |ps|
    requires k in NeighborTable(ps, es)[i]
    ensures k < |ps| && IndexOf(ps[i], ps).Some?
    ensures IndexOf(ps[i], ps).value in NeighborTable(ps, es)[k]
    ensures NeighborTable(ps, es)[k][IndexOf(ps[i], ps).value] == NeighborTable(ps, es)[i][k]
  {
    ScanLinesSpec(map[], ps[i], ps, es);
    var j :| 0 <= j < |es| && LinkedBy(ps[i], ps, es[j], k);
    var i0 := IndexOf(ps[i], ps).value;
    ScanLinesSpec(map[], ps[k], ps, es);
    assert LinkedBy(ps[k], ps, es[j], i0);
    assert Adds(ps[k], ps, es, i0);
    DistanceSymmetric(ps[i], ps[k]);
  }

  /**
   * A node that is not the first at its position is never anyone's neighbour,
   * so unless it is the start itself no walk from the start reaches it.
   */
  lemma LaterDuplicateUnreachable(ps: seq<Point>, es: seq<(Point, Point)>, start: nat, end: nat)
    requires EndpointsFound(ps, es) && start < |ps| && end < |ps|
    requires start != end && IndexOf(ps[end], ps) != Some(end)
    ensures Unreachable(NeighborTable(ps, es), start, end)
  {
    var t := NeighborTable(ps, es);
    forall p | IsWalkFromTo(t, p, start, end)
      ensures false
    {
      var n := |p|;
      assert n >= 2;
      NeighborTableEntry(ps, es, p[n - 2], end);
    }
  }

  // ---------------------------------------------------------------------
  // The search

  /** The number of neighbour entries scanned for the popped nodes, in pop order. */
  ghost function Scanned(w: Table, popped: seq<nat>): nat
    requires forall i | 0 <= i < |popped| :: popped[i] < |w|
    decreases |popped|
  {
    if popped == [] then 0 else Scanned(w, popped[..|popped| - 1]) + |w[popped[|popped| - 1]].Keys|
  }

  /** Popping one more node adds the size of its row to the count. */
  lemma ScannedAppend(w: Table, popped: seq<nat>, u: nat)
    requires (forall i | 0 <= i < |popped| :: popped[i] < |w|) && u < |w|
    ensures forall i | 0 <= i < |popped + [u]| :: (popped + [u])[i] < |w|
    ensures Scanned(w, popped + [u]) == Scanned(w, popped) + |w[u].Keys|
  {
    assert (popped + [u])[..|popped|] == popped;
  }

  /** RelaxedFrom for the neighbours of u outside todo; the ones in todo are not yet scanned. */
  ghost predicate RelaxedExcept(w: Table, u: nat, d: nat,
                                dist: seq<Dist>, pred: seq<Option<nat>>, heap: multiset<Entry>, todo: set<nat>,
                                dist': seq<Dist>, pred': seq<Option<nat>>, heap': multiset<Entry>)
    requires u < |w|
  {
    && |dist'| == |dist| == |w| && |pred'| == |pred| == |w|
    && (forall v | 0 <= v < |w| ::
         dist'[v] == if v !in todo && Improves(w, u, d, dist, v) then Fin(d + w[u][v]) else dist[v])
    && (forall v | 0 <= v < |w| ::
         pred'[v] == if v !in todo && Improves(w, u, d, dist, v) then Some(u) else pred[v])
    && (forall e :: heap'[e] == heap[e] + if e.1 !in todo && IsPushed(w, u, d, dist, e) then 1 else 0)
  }

  /** Scanning an improving neighbour v: new distance, predecessor u and one more heap entry. */
  lemma RelaxImproves(w: Table, u: nat, d: nat, dist: seq<Dist>, pred: seq<Option<nat>>, heap: multiset<Entry>,
                      todo: set<nat>, dist': seq<Dist>, pred': seq<Option<nat>>, heap': multiset<Entry>, v: nat)
    requires u < |w| && v in todo && v in w[u] && v < |w|
    requires RelaxedExcept(w, u, d, dist, pred, heap, todo, dist', pred', heap')
    requires Less(Fin(d + w[u][v]), dist'[v])
    ensures RelaxedExcept(w, u, d, dist, pred, heap, todo - {v},
      dist'[v := Fin(d + w[u][v])], pred'[v := Some(u)], heap' + multiset{(d + w[u][v], v)})
  {
    assert Improves(w, u, d, dist, v);
  }

  /** Scanning a neighbour v that does not improve changes nothing. */
  lemma RelaxSkips(w: Table, u: nat, d: nat, dist: seq<Dist>, pred: seq<Option<nat>>, heap: multiset<Entry>,
                   todo: set<nat>, dist': seq<Dist>, pred': seq<Option<nat>>, heap': multiset<Entry>, v: nat)
    requires u < |w| && v in todo && v in w[u] && v < |w|
    requires RelaxedExcept(w, u, d, dist, pred, heap, todo, dist', pred', heap')
    requires !Less(Fin(d + w[u][v]), dist'[v])
    ensures RelaxedExcept(w, u, d, dist, pred, heap, todo - {v}, dist', pred', heap')
  {
    assert !Improves(w, u, d, dist, v);
  }

  /**
   * The body of the heap loop for a popped entry (d, u) that is not the end:
   * every neighbour whose distance d + weight strictly improves gets that
   * distance, u as predecessor and a new heap entry; one count per neighbour.
   */
  method Relax(w: Table, u: nat, d: nat, dist: seq<Dist>, pred: seq<Option<nat>>,
               heap: multiset<Entry>, count: nat)
    returns (dist': seq<Dist>, pred': seq<Option<nat>>, heap': multiset<Entry>, count': nat)
    requires WellFormed(w) && u < |w| && |dist| == |w| && |pred| == |w|
    ensures RelaxedFrom(w, u, d, dist, pred, heap, dist', pred', heap')
    ensures count' == count + |w[u].Keys|
  {
    dist', pred', heap', count' := dist, pred, heap, count;
    var todo := w[u].Keys;
    while todo != {}
      invariant todo <= w[u].Keys
      invariant count' + |todo| == count + |w[u].Keys|
      invariant RelaxedExcept(w, u, d, dist, pred, heap, todo, dist', pred', heap')
      decreases |todo|
    {
      var v :| v in todo;
      var distance := d + w[u][v];
      if Less(Fin(distance), dist'[v]) {
        RelaxImproves(w, u, d, dist, pred, heap, todo, dist', pred', heap', v);
        dist' := dist'[v := Fin(distance)];
        pred' := pred'[v := Some(u)];
        heap' := heap' + multiset{(distance, v)};
      } else {
        RelaxSkips(w, u, d, dist, pred, heap, todo, dist', pred', heap', v);
      }
      todo := todo - {v};
      count' := count' + 1;
    }
  }

  /**
   * One turn of the heap loop of solve_graph: pop a least entry; on the end
   * node the loop is to stop, otherwise the node's neighbours are relaxed and
   * counted (also when the entry is stale). `settledNode` names the node that
   * this pop settles for the first time, if any.
   */
  method Visit(w: Table, start: nat, end: nat, dist: seq<Dist>, pred: seq<Option<nat>>,
               heap: multiset<Entry>, count: nat,
               ghost settled: set<nat>, ghost time: seq<nat>, ghost stamp: nat)
    returns (dist': seq<Dist>, pred': seq<Option<nat>>, heap': multiset<Entry>, count': nat, found: bool,
             node: nat, ghost settled': set<nat>, ghost time': seq<nat>, ghost stamp': nat,
             ghost settledNode: Option<nat>)
    requires Invariant(w, start, end, dist, pred, heap, settled, time, stamp, false) && heap != multiset{}
    ensures Invariant(w, start, end, dist', pred', heap', settled', time', stamp', found)
    ensures found ==> dist'[end].Fin? && forall p | IsWalkFromTo(w, p, start, end) :: dist'[end].d <= Weight(w, p)
    ensures found ==> node == end && count' == count
    ensures !found ==> node < |w| && node != end && count' == count + |w[node].Keys|
    ensures heap == multiset{(0, start)} ==> node == start
    ensures settledNode.None? ==> settled' == settled && |heap'| < |heap|
    ensures settledNode.Some? ==>
      && !found && settledNode.value == node
      && settledNode.value < |w| && settledNode.value !in settled && settled' == settled + {settledNode.value}
  {
    MinExists(heap);
    var e :| IsMin(e, heap);
    var d, u := e.0, e.1;
    assert heap == multiset{(0, start)} ==> e == (0, start);
    node := u;
    settled', time', stamp', settledNode := settled, time, stamp, None;
    if u == end {
      EndPop(w, start, end, dist, pred, heap, settled, time, stamp, d);
      dist', pred', heap', count', found := dist, pred, heap - multiset{e}, count, true;
    } else {
      assert u < |w|;
      dist', pred', heap', count' := Relax(w, u, d, dist, pred, heap - multiset{e}, count);
      found := false;
      settled', time', stamp' :=
        PopOther(w, start, end, dist, pred, heap, settled, time, stamp, d, u, dist', pred', heap');
      settledNode := if u in settled then None else Some(u);
    }
  }

  /** The solver over one snapshot of the canvas: its nodes, its edges and the table built from them. */
  class GraphSolver {
    var startIndex: nat
    var endIndex: nat
    const points: seq<Knoten>
    const lines: seq<Kante>
    const view: GraphicsViewManager
    var weights: Table

    /** One empty neighbour row per node; both indices start at 0. */
    constructor (points: seq<Knoten>, lines: seq<Kante>, view: GraphicsViewManager)
      ensures this.points == points && this.lines == lines && this.view == view
      ensures weights == seq(|points|, i => map[]) && startIndex == 0 && endIndex == 0
    {
      this.points := points;
      this.lines := lines;
      this.view := view;
      weights := seq(|points|, i => map[]);
      startIndex := 0;
      endIndex := 0;
    }

    method ExtractEndNodes(start: (nat, Knoten), end: (nat, Knoten))
      modifies this`startIndex, this`endIndex
      ensures startIndex == start.0 && endIndex == end.0
    {
      startIndex := start.0;
      endIndex := end.0;
    }

    /**
     * Fills every node's row by scanning all edges: an edge with its first end
     * at the node adds the first node at its second end, otherwise an edge with
     * its second end at the node adds the first node at its first end.
     */
    method SetNeighbors()
      requires |weights| == |points|
      requires EndpointsFound(Positions(points), Ends(lines))
      modifies this`weights
      ensures |weights| == |points|
      ensures forall i | 0 <= i < |points| ::
        weights[i] == ScanLines(old(weights)[i], old(Positions(points))[i], old(Positions(points)), old(Ends(lines)))
    {
      ghost var ps := Positions(points);
      ghost var es := Ends(lines);
      var rows := weights;
      var table := rows;
      for i := 0 to |points|
        invariant Positions(points) == ps && Ends(lines) == es
        invariant |table| == |points|
        invariant forall k | 0 <= k < i :: table[k] == ScanLines(rows[k], ps[k], ps, es)
        invariant forall k | i <= k < |points| :: table[k] == rows[k]
      {
        var row := ScanRow(points[i], table[i]);
        table := table[i := row];
      }
      weights := table;
    }

    /** The inner loop of set_neighbors: the edges scanned in order for the node p1, starting from its row. */
    method ScanRow(p1: Knoten, row0: map<nat, nat>) returns (row: map<nat, nat>)
      requires EndpointsFound(Positions(points), Ends(lines))
      ensures row == ScanLines(row0, p1.pos, Positions(points), Ends(lines))
    {
      ghost var ps := Positions(points);
      ghost var es := Ends(lines);
      ghost var p := p1.pos;
      row := row0;
      for j := 0 to |lines|
        invariant Positions(points) == ps && Ends(lines) == es && p1.pos == p
        invariant EndpointsFound(ps, es[..j])
        invariant row == ScanLines(row0, p1.pos, ps, es[..j])
      {
        var line := lines[j];
        ScanLinesStep(row0, p1.pos, ps, es, j);
        assert es[j] == (line.pos1.pos, line.pos2.pos);
        var other: Option<Knoten> := None;
        if line.pos1.X() == p1.X() && line.pos1.Y() == p1.Y() {
          other := Some(line.pos2);
        } else if line.pos2.X() == p1.X() && line.pos2.Y() == p1.Y() {
          other := Some(line.pos1);
        }
        if other.Some? {
          var neighbor := view.FindObject(other.value, points);
          row := row[neighbor.value := Distance(p1.pos, other.value.pos)];
        }
      }
      assert es[..|lines|] == es;
    }

    /**
     * Heap search from the start index that stops when the end index is
     * popped, then the walk back along predecessor links. The distance is finite
     * exactly when some walk leads from start to end; then the route is such a
     * walk of least weight and the distance is its weight; otherwise the route
     * is the end alone. The path is the nodes along the route, and the count is
     * the number of neighbour entries scanned.
     */
    method SolveGraph() returns (path: seq<Knoten>, distance: Dist, nodesTraveled: nat,
                                 ghost route: seq<nat>, ghost popped: seq<nat>)
      requires WellFormed(weights) && |weights| == |points|
      requires startIndex < |points| && endIndex < |points|
      ensures distance.Fin? <==> !Unreachable(weights, startIndex, endIndex)
      ensures distance.Fin? ==>
        && IsWalkFromTo(weights, route, startIndex, endIndex)
        && Weight(weights, route) == distance.d
        && forall p | IsWalkFromTo(weights, p, startIndex, endIndex) :: distance.d <= Weight(weights, p)
      ensures distance.Inf? ==> route == [endIndex]
      ensures |path| == |route| && forall i | 0 <= i < |route| :: route[i] < |points| && path[i] == points[route[i]]
      ensures forall i | 0 <= i < |popped| :: popped[i] < |weights| && popped[i] != endIndex
      ensures popped == [] <==> startIndex == endIndex
      ensures popped != [] ==> popped[0] == startIndex
      ensures distance.Fin? ==> forall i | 0 <= i < |route| - 1 :: route[i] in popped
      ensures distance.Inf? ==> forall v, p | IsWalkFromTo(weights, p, startIndex, v) :: v in popped
      ensures nodesTraveled == Scanned(weights, popped)
    {
      var w := weights;
      var start, end := startIndex, endIndex;
      var n := |w|;
      nodesTraveled := 0;
      var distances := seq(n, v => Inf)[start := Fin(0)];
      var predecessors: seq<Option<nat>> := seq(n, v => None);
      var heap := multiset{(0, start)};
      var found := false;
      ghost var settled: set<nat> := {};
      ghost var unsettled: set<nat> := Below(n);
      ghost var time: seq<nat> := seq(n, v => 0);
      ghost var stamp: nat := 0;
      popped := [];
      InitialState(w, start, end, distances, predecessors);
      while heap != multiset{} && !found
        invariant Invariant(w, start, end, distances, predecessors, heap, settled, time, stamp, found)
        invariant found ==> distances[end].Fin?
        invariant found ==> forall p | IsWalkFromTo(w, p, start, end) :: distances[end].d <= Weight(w, p)
        invariant forall v: nat :: v in unsettled <==> v < n && v !in settled
        invariant (forall i | 0 <= i < |popped| :: popped[i] < n) && nodesTraveled == Scanned(w, popped)
        invariant PopOrder(popped, start, end, settled)
        invariant popped == [] ==> (found ==> start == end) && (!found ==> heap == multiset{(0, start)})
        decreases |unsettled|, |heap|
      {
        ghost var settledNode: Option<nat>;
        ghost var settledBefore, heapBefore, countBefore := settled, heap, nodesTraveled;
        var node: nat;
        distances, predecessors, heap, nodesTraveled, found, node, settled, time, stamp, settledNode :=
          Visit(w, start, end, distances, predecessors, heap, nodesTraveled, settled, time, stamp);
        popped, unsettled := Account(w, n, start, end, popped, countBefore, nodesTraveled, node, found,
                                     settledBefore, settled, settledNode, unsettled, heapBefore, heap);
      }
      PredDescends(w, start, end, distances, predecessors, settled, time, stamp);
      path, distance, nodesTraveled, route :=
        FinalizePathing(predecessors, distances, nodesTraveled, Rank(settled, time, stamp));
      Conclude(w, start, end, distances, predecessors, heap, settled, time, stamp, found, route);
      ChainSettled(w, start, end, distances, predecessors, heap, settled, time, stamp, found, route);
      if !found {
        ExhaustedSettled(w, start, end, distances, predecessors, settled, time, stamp);
      }
    }

    /**
     * Walks the predecessor links back from the end index, collecting nodes,
     * then reverses them; returns the end's distance and the count unchanged.
     * The links are acyclic because each one strictly lowers `rank`.
     */
    method FinalizePathing(predecessors: seq<Option<nat>>, distances: seq<Dist>, nodesTraveled: nat,
                           ghost rank: seq<nat>)
      returns (path: seq<Knoten>, distance: Dist, traveled: nat, ghost route: seq<nat>)
      requires |predecessors| == |distances| == |points| == |rank| && endIndex < |points|
      requires forall v | 0 <= v < |predecessors| && predecessors[v].Some? ::
        predecessors[v].value < |predecessors| && rank[predecessors[v].value] < rank[v]
      ensures IsPredChain(predecessors, route, endIndex)
      ensures |path| == |route| && forall i | 0 <= i < |route| :: path[i] == points[route[i]]
      ensures distance == distances[endIndex] && traveled == nodesTraveled
    {
      var collected: seq<Knoten> := [];
      ghost var back: seq<nat> := [];
      var current: Option<nat> := Some(endIndex);
      while current.Some?
        invariant current.Some? ==> current.value < |predecessors|
        invariant |collected| == |back|
        invariant forall i | 0 <= i < |back| :: back[i] < |predecessors| && collected[i] == points[back[i]]
        invariant back == [] ==> current == Some(endIndex)
        invariant back != [] ==> back[0] == endIndex && current == predecessors[back[|back| - 1]]
        invariant forall i | 0 <= i < |back| - 1 :: predecessors[back[i]] == Some(back[i + 1])
        decreases if current.Some? then rank[current.value] + 1 else 0
      {
        collected := collected + [points[current.value]];
        back := back + [current.value];
        current := predecessors[current.value];
      }
      path := Reverse(collected);
      route := Reverse(back);
      distance := distances[endIndex];
      traveled := nodesTraveled;
    }
  }

  /**
   * The bookkeeping of one turn of the heap loop: the popped node joins the
   * pop order unless it was the end, and a newly settled node leaves the
   * unsettled ones; either they shrink or the heap does. The pop order starts
   * with the start node, never holds the end, and holds every settled node.
   */
  lemma Account(w: Table, n: nat, start: nat, end: nat, popped: seq<nat>, count: nat, count': nat,
                node: nat, found: bool,
                settled: set<nat>, settled': set<nat>, settledNode: Option<nat>, unsettled: set<nat>,
                heap: multiset<Entry>, heap': multiset<Entry>)
    returns (popped': seq<nat>, unsettled': set<nat>)
    requires n == |w|
    requires (forall i | 0 <= i < |popped| :: popped[i] < n) && count == Scanned(w, popped)
    requires PopOrder(popped, start, end, settled)
    requires popped == [] ==> node == start
    requires found ==> count' == count && node == end
    requires !found ==> node < |w| && node != end && count' == count + |w[node].Keys|
    requires forall v: nat :: v in unsettled <==> v < n && v !in settled
    requires settledNode.None? ==> settled' == settled && |heap'| < |heap|
    requires settledNode.Some? ==>
      && !found && settledNode.value == node
      && settledNode.value < |w| && settledNode.value !in settled && settled' == settled + {settledNode.value}
    ensures (forall i | 0 <= i < |popped'| :: popped'[i] < n) && count' == Scanned(w, popped')
    ensures PopOrder(popped', start, end, settled')
    ensures popped' == [] ==> found && start == end
    ensures forall v: nat :: v in unsettled' <==> v < n && v !in settled'
    ensures |unsettled'| < |unsettled| || (unsettled' == unsettled && |heap'| < |heap|)
  {
    popped' := popped;
    if !found {
      ScannedAppend(w, popped, node);
      popped' := popped + [node];
    }
    unsettled' := unsettled;
    if settledNode.Some? {
      assert settledNode.value in unsettled;
      unsettled' := unsettled - {settledNode.value};
    }
  }

  /** The pop order of the non-end entries: the start comes first, the end never occurs, every settled node occurs. */
  ghost predicate PopOrder(popped: seq<nat>, start: nat, end: nat, settled: set<nat>)
  {
    && (popped != [] ==> popped[0] == start)
    && (forall i | 0 <= i < |popped| :: popped[i] != end)
    && (forall v | v in settled :: v in popped)
  }

  /** The indices below n. */
  ghost function Below(n: nat): (r: set<nat>)
    ensures forall v: nat :: v in r <==> v < n
  {
    if n == 0 then {} else Below(n - 1) + {n - 1}
  }

  /** The list reversed in place by `path.reverse()`. */
  function Reverse<T>(s: seq<T>): (r: seq<T>)
    ensures |r| == |s| && forall i | 0 <= i < |s| :: r[i] == s[|s| - 1 - i]
  {
    seq(|s|, i requires 0 <= i < |s| => s[|s| - 1 - i])
  }
}
