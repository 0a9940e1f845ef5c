/**
 * modules/GraphGenerator.py: a random graph is built as a list of nodes, a
 * deduplicated connection list per node and one edge per (node, connection)
 * pair made of coordinate copies; the edges' end copies are then appended to
 * the canvas. The random draws are parameters.
 */
module Generator {
  import opened Geometry
  import opened Core
  import opened ViewManagement

  // ---------------------------------------------------------------------
  // Connection lists

  /**
   * The connection list set_connections keeps for one node: the drawn indices
   * in draw order, each kept unless it is already in the list.
   */
  function Dedup(draws: seq<nat>): (r: seq<nat>)
    ensures forall x :: x in r <==> x in draws
    ensures forall i, j | 0 <= i < j < |r| :: r[i] != r[j]
    ensures |r| <= |draws|
    ensures draws != [] ==> r != [] && r[0] == draws[0]
    decreases |draws|
  {
    if draws == [] then []
    else
      var pre := draws[..|draws| - 1];
      var r := Dedup(pre);
      var x := draws[|draws| - 1];
      assert forall y :: y in draws <==> y in pre || y == x;
      if x in r then r else r + [x]
  }

  /**
   * Dedup keeps first occurrences in draw order: its entries sit at strictly
   * increasing draw indices, and no earlier draw has the same value.
   */
  lemma {:induction false} DedupInOrder(draws: seq<nat>) returns (idx: seq<nat>)
    ensures |idx| == |Dedup(draws)|
    ensures forall k | 0 <= k < |idx| :: idx[k] < |draws| && Dedup(draws)[k] == draws[idx[k]]
    ensures forall k | 0 <= k < |idx| :: forall j | 0 <= j < idx[k] :: draws[j] != draws[idx[k]]
    ensures forall k, l | 0 <= k < l < |idx| :: idx[k] < idx[l]
    decreases |draws|
  {
    if draws == [] {
      idx := [];
    } else {
      var n := |draws| - 1;
      var pre := draws[..n];
      var init := DedupInOrder(pre);
      var x := draws[n];
      var r := Dedup(pre);
      assert forall j | 0 <= j < n :: pre[j] == draws[j];
      if x in r {
        assert Dedup(draws) == r;
        idx := init;
      } else {
        assert Dedup(draws) == r + [x];
        assert x !in pre;
        idx := init + [n];
        assert idx[|init|] == n;
      }
    }
  }

  /** Draws without repeats are kept as they are. */
  lemma {:induction false} DedupOfDistinct(draws: seq<nat>)
    requires forall i, j | 0 <= i < j < |draws| :: draws[i] != draws[j]
    ensures Dedup(draws) == draws
    decreases |draws|
  {
    if draws != [] {
      var pre := draws[..|draws| - 1];
      DedupOfDistinct(pre);
      assert draws[|draws| - 1] !in pre;
      assert pre + [draws[|draws| - 1]] == draws;
    }
  }

  /** Deduplicating twice is deduplicating once. */
  lemma DedupIdempotent(draws: seq<nat>)
    ensures Dedup(Dedup(draws)) == Dedup(draws)
  {
    DedupOfDistinct(Dedup(draws));
  }

  /** The connection lists of all nodes, one per node's draws. */
  function DedupAll(draws: seq<seq<nat>>): (r: seq<seq<nat>>)
    ensures |r| == |draws| && forall i | 0 <= i < |draws| :: r[i] == Dedup(draws[i])
    ensures forall i, k | 0 <= i < |r| && 0 <= k < |r[i]| :: r[i][k] in draws[i]
  {
    seq(|draws|, i requires 0 <= i < |draws| => Dedup(draws[i]))
  }

  // ---------------------------------------------------------------------
  // Edges

  /** The edges of one node at p: one per connection, in list order, from p to the connected node. */
  function RowEdges(p: Point, ps: seq<Point>, row: seq<nat>): (es: seq<(Point, Point)>)
    requires forall k | 0 <= k < |row| :: row[k] < |ps|
    ensures |es| == |row| && forall k | 0 <= k < |row| :: es[k] == (p, ps[row[k]])
  {
    seq(|row|, k requires 0 <= k < |row| => (p, ps[row[k]]))
  }

  /** The edges create_lines emits: the rows of the nodes in index order, concatenated. */
  function GenEdges(ps: seq<Point>, conns: seq<seq<nat>>): seq<(Point, Point)>
    requires |conns| <= |ps| && forall i, k | 0 <= i < |conns| && 0 <= k < |conns[i]| :: conns[i][k] < |ps|
    decreases |conns|
  {
    if conns == [] then []
    else
      var i := |conns| - 1;
      GenEdges(ps, conns[..i]) + RowEdges(ps[i], ps, conns[i])
  }

  /** An edge is emitted exactly when it joins some node to one of its connections. */
  lemma {:induction false} GenEdgesSpec(ps: seq<Point>, conns: seq<seq<nat>>)
    requires |conns| <= |ps| && forall i, k | 0 <= i < |conns| && 0 <= k < |conns[i]| :: conns[i][k] < |ps|
    ensures forall i, k | 0 <= i < |conns| && 0 <= k < |conns[i]| :: (ps[i], ps[conns[i][k]]) in GenEdges(ps, conns)
    ensures forall e | e in GenEdges(ps, conns) ::
      exists i, k | 0 <= i < |conns| && 0 <= k < |conns[i]| :: e == (ps[i], ps[conns[i][k]])
    decreases |conns|
  {
    if conns != [] {
      var n := |conns| - 1;
      var pre := conns[..n];
      GenEdgesSpec(ps, pre);
      var es := GenEdges(ps, conns);
      var row := RowEdges(ps[n], ps, conns[n]);
      assert es == GenEdges(ps, pre) + row;
      forall i, k | 0 <= i < |conns| && 0 <= k < |conns[i]|
        ensures (ps[i], ps[conns[i][k]]) in es
      {
        if i < n {
          assert pre[i] == conns[i];
          assert (ps[i], ps[pre[i][k]]) in GenEdges(ps, pre);
        } else {
          assert row[k] == (ps[i], ps[conns[i][k]]);
        }
      }
      forall e | e in es
        ensures exists i, k | 0 <= i < |conns| && 0 <= k < |conns[i]| :: e == (ps[i], ps[conns[i][k]])
      {
        if e in GenEdges(ps, pre) {
          var i, k :| 0 <= i < |pre| && 0 <= k < |pre[i]| && e == (ps[i], ps[pre[i][k]]);
          assert pre[i] == conns[i];
        } else {
          var k :| 0 <= k < |row| && row[k] == e;
          assert e == (ps[n], ps[conns[n][k]]);
        }
      }
    }
  }

  /** The node list insert_to_graphicsview appends: the first then the second end of each edge. */
  function Interleave(ls: seq<Kante>): (ns: seq<Knoten>)
    ensures |ns| == 2 * |ls|
    ensures forall k | 0 <= k < |ls| :: ns[2 * k] == ls[k].pos1 && ns[2 * k + 1] == ls[k].pos2
    decreases |ls|
  {
    if ls == [] then [] else Interleave(ls[..|ls| - 1]) + [ls[|ls| - 1].pos1, ls[|ls| - 1].pos2]
  }

  /** No node of ns is flagged start or end. */
  predicate Unflagged(ns: seq<Knoten>)
    reads ns
  {
    forall i | 0 <= i < |ns| :: !ns[i].isStart && !ns[i].isEnd
  }

  /** No end of any edge of ls is flagged start or end. */
  predicate EndsUnflagged(ls: seq<Kante>)
    reads LineNodes(ls)
  {
    forall i | 0 <= i < |ls| :: !ls[i].pos1.isStart && !ls[i].pos1.isEnd && !ls[i].pos2.isStart && !ls[i].pos2.isEnd
  }

  /** Joining two edge lists without flagged ends gives one without flagged ends. */
  lemma EndsUnflaggedAppend(a: seq<Kante>, b: seq<Kante>)
    requires EndsUnflagged(a) && EndsUnflagged(b)
    ensures EndsUnflagged(a + b)
  {
    forall i | 0 <= i < |a + b|
      ensures !(a + b)[i].pos1.isStart && !(a + b)[i].pos1.isEnd && !(a + b)[i].pos2.isStart && !(a + b)[i].pos2.isEnd
    {
      if i >= |a| {
        assert (a + b)[i] == b[i - |a|];
      }
    }
  }

  /** Appending the ends of unflagged edges to unflagged nodes appends no start and no end node. */
  lemma InterleaveUnflagged(ns: seq<Knoten>, ls: seq<Kante>)
    requires Unflagged(ns) && EndsUnflagged(ls)
    ensures Unflagged(ns + Interleave(ls))
  {
    var all := ns + Interleave(ls);
    forall m | |ns| <= m < |all|
      ensures !all[m].isStart && !all[m].isEnd
    {
      var n := all[m];
      var k := (m - |ns|) / 2;
      if (m - |ns|) % 2 == 0 {
        assert m - |ns| == 2 * k && n == ls[k].pos1;
      } else {
        assert m - |ns| == 2 * k + 1 && n == ls[k].pos2;
      }
    }
  }

  /** The positions of a list of edge ends: first end, second end, edge after edge. */
  function Flatten(es: seq<(Point, Point)>): (ps: seq<Point>)
    ensures |ps| == 2 * |es|
    ensures forall k | 0 <= k < |es| :: ps[2 * k] == es[k].0 && ps[2 * k + 1] == es[k].1
    decreases |es|
  {
    if es == [] then [] else Flatten(es[..|es| - 1]) + [es[|es| - 1].0, es[|es| - 1].1]
  }

  /** The appended nodes stand at the edges' end positions. */
  lemma PositionsOfInterleave(ls: seq<Kante>)
    ensures Positions(Interleave(ls)) == Flatten(Ends(ls))
  {
    var a := Positions(Interleave(ls));
    var b := Flatten(Ends(ls));
    forall m | 0 <= m < |a|
      ensures a[m] == b[m]
    {
      var k := m / 2;
      var ns := Interleave(ls);
      var es := Ends(ls);
      assert 0 <= k < |ls|;
      if m % 2 == 0 {
        assert m == 2 * k;
        assert a[m] == ns[2 * k].pos == ls[k].pos1.pos == es[k].0 == b[m];
      } else {
        assert m == 2 * k + 1;
        assert a[m] == ns[2 * k + 1].pos == ls[k].pos2.pos == es[k].1 == b[m];
      }
    }
  }

  /**
   * Appending the edge ends to a node list keeps every generated edge in the
   * derived polyline, reversed: the edge from node 2k + 1 to node 2k of the
   * appended part joins the second end of edge k to its first end.
   */
  lemma PolylineKeepsEdges(ps: seq<Point>, es: seq<(Point, Point)>)
    ensures forall k | 0 <= k < |es| :: Polyline(ps + Flatten(es))[|ps| + 2 * k] == (es[k].1, es[k].0)
  {
    var qs := ps + Flatten(es);
    forall k | 0 <= k < |es|
      ensures Polyline(qs)[|ps| + 2 * k] == (es[k].1, es[k].0)
    {
      assert qs[|ps| + 2 * k] == Flatten(es)[2 * k];
      assert qs[|ps| + 2 * k + 1] == Flatten(es)[2 * k + 1];
    }
  }

  // ---------------------------------------------------------------------
  // The generator

  /** Everything one random graph is built from; the view's width and height bound the coordinates. */
  class GraphGenerator {
    const maxPoints: nat
    const maxConnections: int
    const startIndex: int
    const endIndex: int
    const gv: GraphicsViewManager
    const gvWidth: int
    const gvHeight: int
    /** The generated nodes by index; empty before generation. */
    var nodes: seq<Knoten>
    /** The connection list of each node index. */
    var connections: seq<seq<nat>>
    var lines: seq<Kante>

    /** Start index 0, end index maxPoints - 1, one empty connection list per index, no edges. */
    constructor (maxPoints: nat, maxConnections: int, gv: GraphicsViewManager, width: int, height: int)
      ensures this.maxPoints == maxPoints && this.maxConnections == maxConnections && this.gv == gv
      ensures startIndex == 0 && endIndex == maxPoints - 1
      ensures gvWidth == width && gvHeight == height
      ensures nodes == [] && connections == seq(maxPoints, i => []) && lines == []
    {
      this.maxPoints := maxPoints;
      this.maxConnections := maxConnections;
      startIndex := 0;
      endIndex := maxPoints - 1;
      this.gv := gv;
      gvWidth := width;
      gvHeight := height;
      nodes := [];
      connections := seq(maxPoints, i => []);
      lines := [];
    }

    /**
     * One new node per index at the drawn coordinates (each in
     * [10, width - 10] x [10, height - 10]); the start index is flagged start,
     * otherwise the end index is flagged end.
     */
    method GenerateNodes(coords: seq<Point>)
      requires |coords| == maxPoints
      requires forall i | 0 <= i < |coords| ::
        10 <= coords[i].x <= gvWidth - 10 && 10 <= coords[i].y <= gvHeight - 10
      modifies this`nodes
      ensures |nodes| == maxPoints && Positions(nodes) == coords
      ensures forall i | 0 <= i < |nodes| :: fresh(nodes[i])
      ensures forall i, j | 0 <= i < j < |nodes| :: nodes[i] != nodes[j]
      ensures forall i | 0 <= i < |nodes| ::
        && (nodes[i].isStart <==> i == startIndex)
        && (nodes[i].isEnd <==> i != startIndex && i == endIndex)
    {
      var ns: seq<Knoten> := [];
      for i := 0 to maxPoints
        invariant |ns| == i
        invariant forall k | 0 <= k < i :: fresh(ns[k]) && ns[k].pos == coords[k]
        invariant forall k, l | 0 <= k < l < i :: ns[k] != ns[l]
        invariant forall k | 0 <= k < i ::
          && (ns[k].isStart <==> k == startIndex)
          && (ns[k].isEnd <==> k != startIndex && k == endIndex)
      {
        var node := new Knoten(coords[i]);
        if i == startIndex {
          node.isStart := true;
        } else if i == endIndex {
          node.isEnd := true;
        }
        ns := ns + [node];
      }
      nodes := ns;
    }

    /**
     * For every node index, as many draws as the drawn count (between 1 and
     * maxConnections), each a node index; a drawn index already in the list
     * is skipped.
     */
    method SetConnections(draws: seq<seq<nat>>)
      requires |draws| == maxPoints
      requires forall i | 0 <= i < |draws| :: 1 <= |draws[i]| <= maxConnections
      requires forall i, k | 0 <= i < |draws| && 0 <= k < |draws[i]| :: draws[i][k] < maxPoints
      modifies this`connections
      ensures connections == DedupAll(draws)
    {
      var table := connections;
      var rows := seq(maxPoints, i => []);
      for i := 0 to maxPoints
        invariant |rows| == maxPoints
        invariant forall k | 0 <= k < i :: rows[k] == Dedup(draws[k])
      {
        var picked: seq<nat> := [];
        for j := 0 to |draws[i]|
          invariant picked == Dedup(draws[i][..j])
        {
          var connectNode := draws[i][j];
          if connectNode !in picked {
            picked := picked + [connectNode];
          }
          assert draws[i][..j + 1][..j] == draws[i][..j];
        }
        assert draws[i][..|draws[i]|] == draws[i];
        rows := rows[i := picked];
      }
      connections := rows;
      assert connections == DedupAll(draws);
    }

    /**
     * For each node in index order and each of its connections in order, one
     * edge joining a new node at the node's coordinates to a new node at the
     * connected node's coordinates; the edges are appended.
     */
    method CreateLines()
      requires |connections| == |nodes|
      requires forall i, k | 0 <= i < |connections| && 0 <= k < |connections[i]| :: connections[i][k] < |nodes|
      modifies this`lines
      ensures |lines| >= |old(lines)| && lines[..|old(lines)|] == old(lines)
      ensures Ends(lines[|old(lines)|..]) == GenEdges(Positions(nodes), connections)
      ensures FreshLines(lines[|old(lines)|..])
      ensures EndsUnflagged(lines[|old(lines)|..])
    {
      var ns := nodes;
      var conns := connections;
      var existing := lines;
      ghost var ps := Positions(ns);
      var added: seq<Kante> := [];
      for i := 0 to |ns|
        invariant Ends(added) == GenEdges(ps, conns[..i]) && FreshLines(added)
        invariant EndsUnflagged(added)
      {
        var row := RowLines(ns, i, conns[i]);
        assert Positions(ns) == ps && Ends(added) == GenEdges(ps, conns[..i]);
        assert EndsUnflagged(added) && FreshLines(added);
        EndsAppend(added, row);
        EndsUnflaggedAppend(added, row);
        added := added + row;
        assert conns[..i + 1][..i] == conns[..i] && conns[..i + 1][i] == conns[i];
        assert GenEdges(ps, conns[..i + 1]) == GenEdges(ps, conns[..i]) + RowEdges(ps[i], ps, conns[i]);
      }
      assert conns[..|ns|] == conns;
      lines := existing + added;
      assert lines[|existing|..] == added;
    }

    /** The edges of node i: one per connection, joining fresh unflagged copies of node i and the connected node. */
    method RowLines(ns: seq<Knoten>, i: nat, row: seq<nat>) returns (added: seq<Kante>)
      requires i < |ns| && forall k | 0 <= k < |row| :: row[k] < |ns|
      ensures Ends(added) == RowEdges(ns[i].pos, Positions(ns), row) && FreshLines(added)
      ensures EndsUnflagged(added)
    {
      ghost var ps := Positions(ns);
      added := [];
      for k := 0 to |row|
        invariant Ends(added) == RowEdges(ps[i], ps, row[..k]) && FreshLines(added)
        invariant EndsUnflagged(added)
      {
        var connection := ns[row[k]];
        var a := new Knoten(Point(ns[i].X(), ns[i].Y()));
        var b := new Knoten(Point(connection.X(), connection.Y()));
        added := added + [Kante(a, b)];
      }
      assert row[..|row|] == row;
    }

    /** The loop of insert_to_graphicsview: appends the first then the second end of each edge to objs. */
    static method AppendEnds(objs: seq<Knoten>, ls: seq<Kante>) returns (r: seq<Knoten>)
      ensures r == objs + Interleave(ls)
    {
      r := objs;
      for k := 0 to |ls|
        invariant r == objs + Interleave(ls[..k])
      {
        r := r + [ls[k].pos1];
        r := r + [ls[k].pos2];
        assert ls[..k + 1][..k] == ls[..k];
      }
      assert ls[..|ls|] == ls;
    }

    /** Appends the first then the second end of every edge to the canvas and derives its edges anew. */
    method InsertToGraphicsView()
      modifies gv`objects, gv`lines
      ensures gv.objects == old(gv.objects) + Interleave(lines)
      ensures Positions(gv.objects) == old(Positions(gv.objects)) + old(Flatten(Ends(lines)))
      ensures old(Unflagged(gv.objects) && EndsUnflagged(lines)) ==> Unflagged(gv.objects)
      ensures Ends(gv.lines) == Polyline(Positions(gv.objects)) && FreshLines(gv.lines)
    {
      var ls := lines;
      ghost var before := Positions(gv.objects);
      PositionsOfInterleave(ls);
      PositionsAppend(gv.objects, Interleave(ls));
      ghost var ps := Positions(gv.objects + Interleave(ls));
      assert ps == before + Flatten(Ends(ls));
      var objs := AppendEnds(gv.objects, ls);
      assert Positions(objs) == ps;
      if Unflagged(gv.objects) && EndsUnflagged(ls) {
        InterleaveUnflagged(gv.objects, ls);
      }
      gv.objects := objs;
      assert Positions(gv.objects) == ps;
      gv.RedrawObjects();
    }
  }
}
