/**
 * The state of GraphSolver.solve_graph while its heap loop runs, the invariant
 * that loop keeps, and the facts that make the result a shortest path:
 * tentative distances with infinity, (distance, index) heap entries compared as
 * Python tuples, stale entries that are never deleted, and predecessor links.
 */
module ShortestPath {
  import opened Options
  import opened Graph

  /** A tentative distance; `Inf` is `math.inf`. */
  datatype Dist = Fin(d: nat) | Inf

  /** Python's `<` between a number and a tentative distance that may be infinite. */
  predicate Less(a: Dist, b: Dist)
  {
    match (a, b)
    case (Fin(x), Fin(y)) => x < y
    case (Fin(_), Inf) => true
    case (Inf, _) => false
  }

  /** A heap entry `(distance, index)`. */
  type Entry = (nat, nat)

  /** Python tuple order: by distance, then by node index. */
  predicate EntryLe(a: Entry, b: Entry)
  {
    a.0 < b.0 || (a.0 == b.0 && a.1 <= b.1)
  }

  /** e is what `heapq.heappop` returns from h. */
  predicate IsMin(e: Entry, h: multiset<Entry>)
  {
    e in h && forall f | f in h :: EntryLe(e, f)
  }

  /** Tuple order is total, so the least entry of a heap is unique: the pop order is fixed by the table. */
  lemma MinUnique(e: Entry, f: Entry, h: multiset<Entry>)
    requires IsMin(e, h) && IsMin(f, h)
    ensures e == f
  {
  }

  /** Every non-empty heap has a least entry. */
  lemma {:induction false} MinExists(h: multiset<Entry>)
    requires h != multiset{}
    ensures exists e :: IsMin(e, h)
    decreases |h|
  {
    var x :| x in h;
    var rest := h - multiset{x};
    if rest == multiset{} {
      assert forall f | f in h :: f == x || rest[f] == h[f];
      assert IsMin(x, h);
    } else {
      MinExists(rest);
      var m :| IsMin(m, rest);
      forall f | f in h
        ensures f == x || f in rest
      {
        if f != x { assert rest[f] == h[f]; }
      }
      assert m in h by { assert h[m] >= rest[m]; }
      if EntryLe(x, m) {
        assert IsMin(x, h);
      } else {
        assert IsMin(m, h);
      }
    }
  }

  /** Relaxing the edge u -> v from an entry popped at distance d strictly improves v. */
  predicate Improves(w: Table, u: nat, d: nat, dist: seq<Dist>, v: nat)
    requires u < |w|
  {
    v < |dist| && v in w[u] && Less(Fin(d + w[u][v]), dist[v])
  }

  /** The entry that relaxing u pushes for e's node, if it improves. */
  predicate IsPushed(w: Table, u: nat, d: nat, dist: seq<Dist>, e: Entry)
    requires u < |w|
  {
    Improves(w, u, d, dist, e.1) && e.0 == d + w[u][e.1]
  }

  /**
   * The effect of scanning all neighbours of u after popping (d, u): improved
   * neighbours get distance d + weight, predecessor u and one new heap entry;
   * nothing else changes.
   */
  ghost predicate RelaxedFrom(w: Table, u: nat, d: nat,
                              dist: seq<Dist>, pred: seq<Option<nat>>, heap: multiset<Entry>,
                              dist': seq<Dist>, pred': seq<Option<nat>>, heap': multiset<Entry>)
    requires u < |w|
  {
    && |dist'| == |dist| == |w| && |pred'| == |pred| == |w|
    && (forall v | 0 <= v < |w| :: dist'[v] == if Improves(w, u, d, dist, v) then Fin(d + w[u][v]) else dist[v])
    && (forall v | 0 <= v < |w| :: pred'[v] == if Improves(w, u, d, dist, v) then Some(u) else pred[v])
    && (forall e :: heap'[e] == heap[e] + if IsPushed(w, u, d, dist, e) then 1 else 0)
  }

  /** Array shapes and indices that the other parts of the invariant rely on. */
  ghost predicate Shape(w: Table, start: nat, end: nat, dist: seq<Dist>, pred: seq<Option<nat>>,
                        settled: set<nat>, time: seq<nat>, stamp: nat)
  {
    && WellFormed(w) && start < |w| && end < |w|
    && |dist| == |w| && |pred| == |w| && |time| == |w|
    && (forall u | u in settled :: u < |w| && dist[u].Fin? && time[u] < stamp)
    && end !in settled
    && dist[start] == Fin(0) && pred[start] == None
  }

  /** Each heap entry is at least the current distance of its node. */
  ghost predicate HeapSound(w: Table, dist: seq<Dist>, heap: multiset<Entry>)
    requires |dist| == |w|
  {
    forall e | e in heap :: e.1 < |w| && dist[e.1].Fin? && dist[e.1].d <= e.0
  }

  /** An unsettled node with a finite distance still has the entry for that distance in the heap. */
  ghost predicate FreshEntries(w: Table, end: nat, dist: seq<Dist>, heap: multiset<Entry>,
                               settled: set<nat>, found: bool)
    requires |dist| == |w|
  {
    forall v | 0 <= v < |w| && v !in settled && dist[v].Fin? && !(found && v == end) :: (dist[v].d, v) in heap
  }

  /** No heap entry is below the distance of a settled node. */
  ghost predicate SettledBelowHeap(w: Table, dist: seq<Dist>, heap: multiset<Entry>, settled: set<nat>)
    requires |dist| == |w|
    requires forall u | u in settled :: u < |w| && dist[u].Fin?
  {
    forall u, e | u in settled && e in heap :: dist[u].d <= e.0
  }

  /** Every edge out of a settled node has been relaxed. */
  ghost predicate SettledRelaxed(w: Table, dist: seq<Dist>, settled: set<nat>)
    requires WellFormed(w) && |dist| == |w|
    requires forall u | u in settled :: u < |w| && dist[u].Fin?
  {
    forall u, v | u in settled && v in w[u] :: dist[v].Fin? && dist[v].d <= dist[u].d + w[u][v]
  }

  /** A settled node's distance is no more than the weight of any walk reaching it from the start. */
  ghost predicate SettledOptimal(w: Table, start: nat, dist: seq<Dist>, settled: set<nat>)
    requires |dist| == |w|
    requires forall u | u in settled :: u < |w| && dist[u].Fin?
  {
    forall u, p | u in settled && IsWalkFromTo(w, p, start, u) :: dist[u].d <= Weight(w, p)
  }

  /**
   * Predecessor links: only nodes with a finite distance other than the start
   * have one; it is a settled node whose distance plus the edge weight is the
   * node's distance, and that node was settled earlier.
   */
  ghost predicate PredTight(w: Table, start: nat, dist: seq<Dist>, pred: seq<Option<nat>>,
                            settled: set<nat>, time: seq<nat>)
    requires WellFormed(w) && |dist| == |w| && |pred| == |w| && |time| == |w|
    requires forall u | u in settled :: u < |w| && dist[u].Fin?
  {
    forall v | 0 <= v < |w| ::
      && (dist[v].Inf? ==> pred[v].None?)
      && (v != start && dist[v].Fin? ==>
            && pred[v].Some? && pred[v].value in settled && v in w[pred[v].value]
            && dist[v].d == dist[pred[v].value].d + w[pred[v].value][v]
            && (v in settled ==> time[pred[v].value] < time[v]))
  }

  /** The invariant of the heap loop of solve_graph. */
  ghost predicate Invariant(w: Table, start: nat, end: nat, dist: seq<Dist>, pred: seq<Option<nat>>,
                            heap: multiset<Entry>, settled: set<nat>, time: seq<nat>, stamp: nat,
                            found: bool)
  {
    && Shape(w, start, end, dist, pred, settled, time, stamp)
    && HeapSound(w, dist, heap)
    && FreshEntries(w, end, dist, heap, settled, found)
    && SettledBelowHeap(w, dist, heap, settled)
    && SettledRelaxed(w, dist, settled)
    && SettledOptimal(w, start, dist, settled)
    && PredTight(w, start, dist, pred, settled, time)
  }

  /** No walk from the start reaches the end. */
  ghost predicate Unreachable(w: Table, start: nat, end: nat)
  {
    forall p :: !IsWalkFromTo(w, p, start, end)
  }

  /** The state solve_graph sets up before its loop: only the start has a distance (0) and an entry. */
  lemma InitialState(w: Table, start: nat, end: nat, dist: seq<Dist>, pred: seq<Option<nat>>)
    requires WellFormed(w) && start < |w| && end < |w|
    requires dist == seq(|w|, v => Inf)[start := Fin(0)]
    requires pred == seq(|w|, v => None)
    ensures Invariant(w, start, end, dist, pred, multiset{(0, start)}, {}, seq(|w|, v => 0), 0, false)
  {
  }

  /**
   * The cut argument: when (d, _) is the least heap entry, every walk from the
   * start to a node that is not settled weighs at least d, because it leaves
   * the settled nodes through a relaxed edge into a node whose fresh entry is
   * still in the heap.
   */
  lemma Cut(w: Table, start: nat, end: nat, dist: seq<Dist>, pred: seq<Option<nat>>,
            heap: multiset<Entry>, settled: set<nat>, time: seq<nat>, stamp: nat,
            d: nat, u: nat, p: seq<nat>)
    requires Invariant(w, start, end, dist, pred, heap, settled, time, stamp, false)
    requires forall f | f in heap :: d <= f.0
    requires u !in settled && IsWalkFromTo(w, p, start, u)
    ensures d <= Weight(w, p)
  {
    var k := 0;
    while p[k] in settled
      invariant 0 <= k < |p|
      invariant k > 0 ==> p[k - 1] in settled
      decreases |p| - k
    {
      k := k + 1;
    }
    WeightPrefix(w, p, k + 1);
    var y := p[k];
    if k == 0 {
      assert (dist[start].d, start) in heap;
    } else {
      var x := p[k - 1];
      WeightPrefix(w, p, k);
      assert IsWalkFromTo(w, p[..k], start, x);
      assert dist[x].d <= Weight(w, p[..k]);
      WeightExtend(w, p[..k], y);
      assert p[..k] + [y] == p[..k + 1];
      assert dist[y].d <= dist[x].d + w[x][y];
      assert (dist[y].d, y) in heap;
    }
  }

  /** Popping an entry of a settled node (a stale or repeated entry) improves nothing. */
  lemma StalePop(w: Table, start: nat, end: nat, dist: seq<Dist>, pred: seq<Option<nat>>,
                 heap: multiset<Entry>, settled: set<nat>, time: seq<nat>, stamp: nat,
                 d: nat, u: nat, dist': seq<Dist>, pred': seq<Option<nat>>, heap': multiset<Entry>)
    requires Invariant(w, start, end, dist, pred, heap, settled, time, stamp, false)
    requires IsMin((d, u), heap) && u < |w| && u in settled
    requires RelaxedFrom(w, u, d, dist, pred, heap - multiset{(d, u)}, dist', pred', heap')
    ensures dist' == dist && pred' == pred && heap' == heap - multiset{(d, u)}
    ensures Invariant(w, start, end, dist', pred', heap', settled, time, stamp, false)
  {
    forall v | 0 <= v < |w|
      ensures !Improves(w, u, d, dist, v)
    {
      if v in w[u] {
        assert dist[v].d <= dist[u].d + w[u][v];
      }
    }
    assert dist' == dist;
    assert pred' == pred;
    assert heap' == heap - multiset{(d, u)};
  }

  /**
   * What holds while the fresh entry (d, u) of an unsettled node u is being
   * processed: u's distance is d, and every neighbour that the scan improves is
   * unsettled and is neither u nor the start.
   */
  ghost predicate Settling(w: Table, start: nat, end: nat, dist: seq<Dist>, pred: seq<Option<nat>>,
                           heap: multiset<Entry>, settled: set<nat>, time: seq<nat>, stamp: nat,
                           d: nat, u: nat, dist': seq<Dist>, pred': seq<Option<nat>>, heap': multiset<Entry>)
  {
    && Shape(w, start, end, dist, pred, settled, time, stamp)
    && u < |w| && u !in settled && u != end && dist[u] == Fin(d)
    && (d, u) in heap
    && RelaxedFrom(w, u, d, dist, pred, heap - multiset{(d, u)}, dist', pred', heap')
    && (forall v | 0 <= v < |w| && Improves(w, u, d, dist, v) :: v !in settled && v != u && v != start)
  }

  lemma SettlingFacts(w: Table, start: nat, end: nat, dist: seq<Dist>, pred: seq<Option<nat>>,
                      heap: multiset<Entry>, settled: set<nat>, time: seq<nat>, stamp: nat,
                      d: nat, u: nat, dist': seq<Dist>, pred': seq<Option<nat>>, heap': multiset<Entry>)
    requires Invariant(w, start, end, dist, pred, heap, settled, time, stamp, false)
    requires IsMin((d, u), heap) && u < |w| && u !in settled && u != end
    requires RelaxedFrom(w, u, d, dist, pred, heap - multiset{(d, u)}, dist', pred', heap')
    ensures Settling(w, start, end, dist, pred, heap, settled, time, stamp, d, u, dist', pred', heap')
  {
    assert (dist[u].d, u) in heap;
    assert forall v | v in settled :: dist[v].d <= d;
  }

  lemma SettleShape(w: Table, start: nat, end: nat, dist: seq<Dist>, pred: seq<Option<nat>>,
                    heap: multiset<Entry>, settled: set<nat>, time: seq<nat>, stamp: nat,
                    d: nat, u: nat, dist': seq<Dist>, pred': seq<Option<nat>>, heap': multiset<Entry>)
    requires Settling(w, start, end, dist, pred, heap, settled, time, stamp, d, u, dist', pred', heap')
    ensures Shape(w, start, end, dist', pred', settled + {u}, time[u := stamp], stamp + 1)
    ensures forall v | 0 <= v < |w| && v in settled + {u} :: dist'[v] == dist[v] && pred'[v] == pred[v]
  {
  }

  lemma SettleHeapSound(w: Table, start: nat, end: nat, dist: seq<Dist>, pred: seq<Option<nat>>,
                        heap: multiset<Entry>, settled: set<nat>, time: seq<nat>, stamp: nat,
                        d: nat, u: nat, dist': seq<Dist>, pred': seq<Option<nat>>, heap': multiset<Entry>)
    requires Settling(w, start, end, dist, pred, heap, settled, time, stamp, d, u, dist', pred', heap')
    requires HeapSound(w, dist, heap)
    ensures HeapSound(w, dist', heap')
  {
    var rest := heap - multiset{(d, u)};
    forall e | e in heap'
      ensures e.1 < |w| && dist'[e.1].Fin? && dist'[e.1].d <= e.0
    {
      if !IsPushed(w, u, d, dist, e) {
        assert e in rest;
      }
    }
  }

  lemma SettleFresh(w: Table, start: nat, end: nat, dist: seq<Dist>, pred: seq<Option<nat>>,
                    heap: multiset<Entry>, settled: set<nat>, time: seq<nat>, stamp: nat,
                    d: nat, u: nat, dist': seq<Dist>, pred': seq<Option<nat>>, heap': multiset<Entry>)
    requires Settling(w, start, end, dist, pred, heap, settled, time, stamp, d, u, dist', pred', heap')
    requires FreshEntries(w, end, dist, heap, settled, false)
    ensures FreshEntries(w, end, dist', heap', settled + {u}, false)
  {
    var rest := heap - multiset{(d, u)};
    forall v | 0 <= v < |w| && v !in settled + {u} && dist'[v].Fin?
      ensures (dist'[v].d, v) in heap'
    {
      if !Improves(w, u, d, dist, v) {
        assert (dist[v].d, v) in heap;
        assert (dist[v].d, v) in rest;
      } else {
        assert IsPushed(w, u, d, dist, (dist'[v].d, v));
      }
    }
  }

  lemma SettleBelowHeap(w: Table, start: nat, end: nat, dist: seq<Dist>, pred: seq<Option<nat>>,
                        heap: multiset<Entry>, settled: set<nat>, time: seq<nat>, stamp: nat,
                        d: nat, u: nat, dist': seq<Dist>, pred': seq<Option<nat>>, heap': multiset<Entry>)
    requires Settling(w, start, end, dist, pred, heap, settled, time, stamp, d, u, dist', pred', heap')
    requires SettledBelowHeap(w, dist, heap, settled)
    requires IsMin((d, u), heap)
    ensures SettledBelowHeap(w, dist', heap', settled + {u})
  {
    SettleShape(w, start, end, dist, pred, heap, settled, time, stamp, d, u, dist', pred', heap');
    var rest := heap - multiset{(d, u)};
    forall x, e | x in settled + {u} && e in heap'
      ensures dist'[x].d <= e.0
    {
      assert dist'[x] == dist[x];
      if !IsPushed(w, u, d, dist, e) {
        assert e in rest;
        assert e in heap;
      } else {
        assert dist[x].d <= d by {
          if x != u { assert (d, u) in heap; }
        }
      }
    }
  }

  lemma SettleRelaxed(w: Table, start: nat, end: nat, dist: seq<Dist>, pred: seq<Option<nat>>,
                      heap: multiset<Entry>, settled: set<nat>, time: seq<nat>, stamp: nat,
                      d: nat, u: nat, dist': seq<Dist>, pred': seq<Option<nat>>, heap': multiset<Entry>)
    requires Settling(w, start, end, dist, pred, heap, settled, time, stamp, d, u, dist', pred', heap')
    requires SettledRelaxed(w, dist, settled)
    ensures SettledRelaxed(w, dist', settled + {u})
  {
    SettleShape(w, start, end, dist, pred, heap, settled, time, stamp, d, u, dist', pred', heap');
    forall x, v | x in settled + {u} && v in w[x]
      ensures dist'[v].Fin? && dist'[v].d <= dist'[x].d + w[x][v]
    {
      assert dist'[x] == dist[x];
      if x == u {
        if !Improves(w, u, d, dist, v) {
          assert !Less(Fin(d + w[u][v]), dist[v]);
        }
      }
    }
  }

  lemma SettleOptimal(w: Table, start: nat, end: nat, dist: seq<Dist>, pred: seq<Option<nat>>,
                      heap: multiset<Entry>, settled: set<nat>, time: seq<nat>, stamp: nat,
                      d: nat, u: nat, dist': seq<Dist>, pred': seq<Option<nat>>, heap': multiset<Entry>)
    requires Settling(w, start, end, dist, pred, heap, settled, time, stamp, d, u, dist', pred', heap')
    requires SettledOptimal(w, start, dist, settled)
    requires forall p | IsWalkFromTo(w, p, start, u) :: d <= Weight(w, p)
    ensures SettledOptimal(w, start, dist', settled + {u})
  {
    SettleShape(w, start, end, dist, pred, heap, settled, time, stamp, d, u, dist', pred', heap');
  }

  lemma SettlePred(w: Table, start: nat, end: nat, dist: seq<Dist>, pred: seq<Option<nat>>,
                   heap: multiset<Entry>, settled: set<nat>, time: seq<nat>, stamp: nat,
                   d: nat, u: nat, dist': seq<Dist>, pred': seq<Option<nat>>, heap': multiset<Entry>)
    requires Settling(w, start, end, dist, pred, heap, settled, time, stamp, d, u, dist', pred', heap')
    requires PredTight(w, start, dist, pred, settled, time)
    ensures PredTight(w, start, dist', pred', settled + {u}, time[u := stamp])
  {
    SettleShape(w, start, end, dist, pred, heap, settled, time, stamp, d, u, dist', pred', heap');
    var settled', time' := settled + {u}, time[u := stamp];
    forall v | 0 <= v < |w|
      ensures dist'[v].Inf? ==> pred'[v].None?
      ensures v != start && dist'[v].Fin? ==>
            && pred'[v].Some? && pred'[v].value in settled' && v in w[pred'[v].value]
            && dist'[v].d == dist'[pred'[v].value].d + w[pred'[v].value][v]
            && (v in settled' ==> time'[pred'[v].value] < time'[v])
    {
      if !Improves(w, u, d, dist, v) && v != start && dist[v].Fin? {
        var x := pred[v].value;
        assert dist'[x] == dist[x];
        if v == u {
          assert time'[x] == time[x] < stamp;
        }
      }
    }
  }

  /** Popping the fresh entry of an unsettled node other than the end settles it with an optimal distance. */
  lemma SettlePop(w: Table, start: nat, end: nat, dist: seq<Dist>, pred: seq<Option<nat>>,
                  heap: multiset<Entry>, settled: set<nat>, time: seq<nat>, stamp: nat,
                  d: nat, u: nat, dist': seq<Dist>, pred': seq<Option<nat>>, heap': multiset<Entry>)
    requires Invariant(w, start, end, dist, pred, heap, settled, time, stamp, false)
    requires IsMin((d, u), heap) && u < |w| && u !in settled && u != end
    requires RelaxedFrom(w, u, d, dist, pred, heap - multiset{(d, u)}, dist', pred', heap')
    ensures dist[u] == Fin(d)
    ensures Invariant(w, start, end, dist', pred', heap', settled + {u}, time[u := stamp], stamp + 1, false)
  {
    SettlingFacts(w, start, end, dist, pred, heap, settled, time, stamp, d, u, dist', pred', heap');
    forall p | IsWalkFromTo(w, p, start, u)
      ensures d <= Weight(w, p)
    {
      Cut(w, start, end, dist, pred, heap, settled, time, stamp, d, u, p);
    }
    SettleShape(w, start, end, dist, pred, heap, settled, time, stamp, d, u, dist', pred', heap');
    SettleHeapSound(w, start, end, dist, pred, heap, settled, time, stamp, d, u, dist', pred', heap');
    SettleFresh(w, start, end, dist, pred, heap, settled, time, stamp, d, u, dist', pred', heap');
    SettleBelowHeap(w, start, end, dist, pred, heap, settled, time, stamp, d, u, dist', pred', heap');
    SettleRelaxed(w, start, end, dist, pred, heap, settled, time, stamp, d, u, dist', pred', heap');
    SettleOptimal(w, start, end, dist, pred, heap, settled, time, stamp, d, u, dist', pred', heap');
    SettlePred(w, start, end, dist, pred, heap, settled, time, stamp, d, u, dist', pred', heap');
  }

  /**
   * A pop of a node other than the end, after its neighbours were relaxed:
   * a stale entry leaves the settled nodes as they were and shrinks the heap,
   * a first pop settles the node at the next settle time.
   */
  lemma PopOther(w: Table, start: nat, end: nat, dist: seq<Dist>, pred: seq<Option<nat>>,
                 heap: multiset<Entry>, settled: set<nat>, time: seq<nat>, stamp: nat,
                 d: nat, u: nat, dist': seq<Dist>, pred': seq<Option<nat>>, heap': multiset<Entry>)
    returns (settled': set<nat>, time': seq<nat>, stamp': nat)
    requires Invariant(w, start, end, dist, pred, heap, settled, time, stamp, false)
    requires IsMin((d, u), heap) && u < |w| && u != end
    requires RelaxedFrom(w, u, d, dist, pred, heap - multiset{(d, u)}, dist', pred', heap')
    ensures Invariant(w, start, end, dist', pred', heap', settled', time', stamp', false)
    ensures u in settled ==> settled' == settled && |heap'| < |heap|
    ensures u !in settled ==> settled' == settled + {u}
  {
    if u in settled {
      StalePop(w, start, end, dist, pred, heap, settled, time, stamp, d, u, dist', pred', heap');
      settled', time', stamp' := settled, time, stamp;
    } else {
      SettlePop(w, start, end, dist, pred, heap, settled, time, stamp, d, u, dist', pred', heap');
      settled', time', stamp' := settled + {u}, time[u := stamp], stamp + 1;
    }
  }

  /** The first pop of the end node carries its shortest distance. */
  lemma EndPop(w: Table, start: nat, end: nat, dist: seq<Dist>, pred: seq<Option<nat>>,
               heap: multiset<Entry>, settled: set<nat>, time: seq<nat>, stamp: nat, d: nat)
    requires Invariant(w, start, end, dist, pred, heap, settled, time, stamp, false)
    requires IsMin((d, end), heap)
    ensures dist[end] == Fin(d)
    ensures forall p | IsWalkFromTo(w, p, start, end) :: d <= Weight(w, p)
    ensures Invariant(w, start, end, dist, pred, heap - multiset{(d, end)}, settled, time, stamp, true)
  {
    assert (dist[end].d, end) in heap;
    forall p | IsWalkFromTo(w, p, start, end)
      ensures d <= Weight(w, p)
    {
      Cut(w, start, end, dist, pred, heap, settled, time, stamp, d, end, p);
    }
    var rest := heap - multiset{(d, end)};
    forall v | 0 <= v < |w| && v !in settled && dist[v].Fin? && v != end
      ensures (dist[v].d, v) in rest
    {
      assert (dist[v].d, v) in heap;
    }
  }

  /** When the heap runs dry without reaching the end, every node some walk from the start reaches is settled. */
  lemma ExhaustedSettled(w: Table, start: nat, end: nat, dist: seq<Dist>, pred: seq<Option<nat>>,
                         settled: set<nat>, time: seq<nat>, stamp: nat)
    requires Invariant(w, start, end, dist, pred, multiset{}, settled, time, stamp, false)
    ensures forall v, p | IsWalkFromTo(w, p, start, v) :: v in settled
  {
    forall v, p | IsWalkFromTo(w, p, start, v)
      ensures v in settled
    {
      var k := 0;
      while k < |p| - 1
        invariant 0 <= k < |p| && p[k] in settled
      {
        assert dist[p[k + 1]].Fin?;
        k := k + 1;
      }
    }
  }

  /** When the heap runs dry without reaching the end, no walk reaches it. */
  lemma Exhausted(w: Table, start: nat, end: nat, dist: seq<Dist>, pred: seq<Option<nat>>,
                  settled: set<nat>, time: seq<nat>, stamp: nat)
    requires Invariant(w, start, end, dist, pred, multiset{}, settled, time, stamp, false)
    ensures dist[end] == Inf
    ensures Unreachable(w, start, end)
  {
    ExhaustedSettled(w, start, end, dist, pred, settled, time, stamp);
  }

  /** Every node of a predecessor chain except its last was settled: links only ever point to settled nodes. */
  lemma ChainSettled(w: Table, start: nat, end: nat, dist: seq<Dist>, pred: seq<Option<nat>>,
                     heap: multiset<Entry>, settled: set<nat>, time: seq<nat>, stamp: nat, found: bool,
                     route: seq<nat>)
    requires Invariant(w, start, end, dist, pred, heap, settled, time, stamp, found)
    requires IsPredChain(pred, route, end)
    ensures forall i | 0 <= i < |route| - 1 :: route[i] in settled
  {
    forall i | 0 <= i < |route| - 1
      ensures route[i] in settled
    {
      assert pred[route[i + 1]] == Some(route[i]);
    }
  }

  /**
   * route is what walking the predecessor links back from `end` collects, in
   * start-to-end order: it ends at `end`, its first node has no predecessor, and
   * each node is the predecessor of the next.
   */
  ghost predicate IsPredChain(pred: seq<Option<nat>>, route: seq<nat>, end: nat)
  {
    && |route| >= 1
    && (forall i | 0 <= i < |route| :: route[i] < |pred|)
    && route[|route| - 1] == end
    && pred[route[0]] == None
    && (forall i | 0 <= i < |route| - 1 :: pred[route[i + 1]] == Some(route[i]))
  }

  /** Settle time for settled nodes and `stamp`, above every settle time, for the others. */
  ghost function Rank(settled: set<nat>, time: seq<nat>, stamp: nat): seq<nat>
  {
    seq(|time|, v requires 0 <= v < |time| => if v in settled then time[v] else stamp)
  }

  /** Following a predecessor link strictly lowers the rank, so the links form no cycle. */
  lemma PredDescends(w: Table, start: nat, end: nat, dist: seq<Dist>, pred: seq<Option<nat>>,
                     settled: set<nat>, time: seq<nat>, stamp: nat)
    requires Shape(w, start, end, dist, pred, settled, time, stamp)
    requires PredTight(w, start, dist, pred, settled, time)
    ensures var rank := Rank(settled, time, stamp);
      forall v | 0 <= v < |pred| && pred[v].Some? :: pred[v].value < |pred| && rank[pred[v].value] < rank[v]
  {
  }

  /**
   * A predecessor chain that ends at a node with a finite distance is a walk
   * from the start whose weight is that distance.
   */
  lemma ChainIsWalk(w: Table, start: nat, end: nat, dist: seq<Dist>, pred: seq<Option<nat>>,
                    settled: set<nat>, time: seq<nat>, stamp: nat, route: seq<nat>)
    requires Shape(w, start, end, dist, pred, settled, time, stamp)
    requires PredTight(w, start, dist, pred, settled, time)
    requires IsPredChain(pred, route, end) && dist[end].Fin?
    ensures IsWalkFromTo(w, route, start, end)
    ensures Weight(w, route) == dist[end].d
  {
    var n := |route|;
    var i := n - 1;
    while i > 0
      invariant 0 <= i < n
      invariant forall j | i <= j < n :: dist[route[j]].Fin?
      invariant forall j | i <= j < n - 1 ::
        route[j + 1] in w[route[j]] && dist[route[j + 1]].d == dist[route[j]].d + w[route[j]][route[j + 1]]
    {
      ChainLink(w, start, end, dist, pred, settled, time, stamp, route[i - 1], route[i]);
      i := i - 1;
    }
    assert route[0] == start;
    WeightTelescopes(w, dist, route);
  }

  /**
   * Along a walk on which each step's weight is the growth of the distance
   * label, the walk weighs the difference of the labels at its two ends.
   */
  lemma {:induction false} WeightTelescopes(w: Table, dist: seq<Dist>, p: seq<nat>)
    requires |p| >= 1 && forall j | 0 <= j < |p| :: p[j] < |w| && p[j] < |dist| && dist[p[j]].Fin?
    requires forall j | 0 <= j < |p| - 1 ::
      p[j + 1] in w[p[j]] && dist[p[j + 1]].d == dist[p[j]].d + w[p[j]][p[j + 1]]
    ensures IsWalk(w, p) && Weight(w, p) + dist[p[0]].d == dist[p[|p| - 1]].d
    decreases |p|
  {
    if |p| > 1 {
      var q := p[..|p| - 1];
      WeightTelescopes(w, dist, q);
    }
  }

  /** One predecessor link a -> b into a node with a finite distance is a table edge that accounts for b's distance. */
  lemma ChainLink(w: Table, start: nat, end: nat, dist: seq<Dist>, pred: seq<Option<nat>>,
                  settled: set<nat>, time: seq<nat>, stamp: nat, a: nat, b: nat)
    requires Shape(w, start, end, dist, pred, settled, time, stamp)
    requires PredTight(w, start, dist, pred, settled, time)
    requires b < |w| && pred[b] == Some(a) && dist[b].Fin?
    ensures a < |w| && dist[a].Fin? && b in w[a] && dist[b].d == dist[a].d + w[a][b]
  {
  }

  /**
   * What solve_graph reports once its loop has stopped, either on popping the
   * end or on an empty heap: the end's distance is finite exactly when the end
   * is reachable, the predecessor chain is then a shortest walk with that
   * weight, and otherwise the chain is the end alone.
   */
  lemma Conclude(w: Table, start: nat, end: nat, dist: seq<Dist>, pred: seq<Option<nat>>,
                 heap: multiset<Entry>, settled: set<nat>, time: seq<nat>, stamp: nat, found: bool,
                 route: seq<nat>)
    requires Invariant(w, start, end, dist, pred, heap, settled, time, stamp, found)
    requires heap == multiset{} || found
    requires found ==> dist[end].Fin? && forall p | IsWalkFromTo(w, p, start, end) :: dist[end].d <= Weight(w, p)
    requires IsPredChain(pred, route, end)
    ensures dist[end].Fin? <==> !Unreachable(w, start, end)
    ensures dist[end].Fin? ==>
      && IsWalkFromTo(w, route, start, end)
      && Weight(w, route) == dist[end].d
      && forall p | IsWalkFromTo(w, p, start, end) :: dist[end].d <= Weight(w, p)
    ensures dist[end].Inf? ==> route == [end]
  {
    if !found {
      Exhausted(w, start, end, dist, pred, settled, time, stamp);
      assert pred[end] == None;
      assert |route| == 1;
    } else {
      ChainIsWalk(w, start, end, dist, pred, settled, time, stamp, route);
    }
  }
}
