/**
 * The weighted graph the solver works on: row i of the table maps the index of
 * each neighbour of node i to the edge weight (GraphSolver.weights), and walks
 * through that table with their total weight.
 */
module Graph {

  /** Per-index adjacency and weight table: weights[i][j] is the weight of the edge i -> j. */
  type Table = seq<map<nat, nat>>

  /** Every neighbour index names a row of the table. */
  ghost predicate WellFormed(w: Table)
  {
    forall i, j :: 0 <= i < |w| && j in w[i] ==> j < |w|
  }

  /** p is a non-empty sequence of node indices, each joined to the next by a table entry. */
  ghost predicate IsWalk(w: Table, p: seq<nat>)
  {
    && |p| >= 1
    && (forall i :: 0 <= i < |p| ==> p[i] < |w|)
    && (forall i :: 0 <= i < |p| - 1 ==> p[i + 1] in w[p[i]])
  }

  ghost predicate IsWalkFromTo(w: Table, p: seq<nat>, s: nat, t: nat)
  {
    IsWalk(w, p) && p[0] == s && p[|p| - 1] == t
  }

  /** Sum of the weights of the steps of a walk. */
  ghost function Weight(w: Table, p: seq<nat>): nat
    requires IsWalk(w, p)
    decreases |p|
  {
    if |p| == 1 then 0
    else Weight(w, p[..|p| - 1]) + w[p[|p| - 2]][p[|p| - 1]]
  }

  /** Extending a walk by one step adds that step's weight. */
  lemma WeightExtend(w: Table, p: seq<nat>, v: nat)
    requires IsWalk(w, p) && v < |w| && v in w[p[|p| - 1]]
    ensures IsWalk(w, p + [v])
    ensures Weight(w, p + [v]) == Weight(w, p) + w[p[|p| - 1]][v]
  {
    assert (p + [v])[..|p|] == p;
  }

  /** A prefix of a walk is a walk, and never weighs more (weights are natural numbers). */
  lemma {:induction false} WeightPrefix(w: Table, p: seq<nat>, k: nat)
    requires IsWalk(w, p) && 1 <= k <= |p|
    ensures IsWalk(w, p[..k])
    ensures Weight(w, p[..k]) <= Weight(w, p)
    decreases |p|
  {
    if k < |p| {
      var q := p[..|p| - 1];
      assert IsWalk(w, q);
      WeightPrefix(w, q, k);
      assert q[..k] == p[..k];
    } else {
      assert p[..k] == p;
    }
  }
}
