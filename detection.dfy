/** What the verification scan of bellman-ford.js detects: on tables where no
    edge of the order still relaxes, distances along any walk of examined
    edges grow by at most the walk's weight, so a negative cycle reachable
    from the source always leaves a witness for the scan. */
module Detection {
  import opened Graph
  import opened Relaxation

  /** The total weight of a sequence of edges. */
  function Weight(c: seq<Edge>): int
    decreases |c|
  {
    if c == [] then 0 else Weight(c[..|c| - 1]) + c[|c| - 1].weight
  }

  /** Each edge starts where the previous one ends. */
  ghost predicate IsWalk(c: seq<Edge>) {
    forall i :: 0 < i < |c| ==> c[i - 1].to == c[i].from
  }

  /** Every edge of `c` has both endpoints in `keys` and is the edge that some
      id of the order resolves to, so every pass examines it. */
  ghost predicate Examined(keys: set<string>, edges: seq<Edge>, order: seq<string>, c: seq<Edge>) {
    forall i :: 0 <= i < |c| ==>
      && c[i].from in keys && c[i].to in keys
      && exists j :: 0 <= j < |order| && Find(edges, order[j]) == Some(c[i])
  }

  /** Passes never raise a distance, so neither do any number of them. */
  lemma {:induction false} AfterNoIncrease(t0: Tables, edges: seq<Edge>, order: seq<string>, k: nat)
    ensures NoIncrease(t0, After(t0, edges, order, k))
  {
    if k > 0 {
      AfterNoIncrease(t0, edges, order, k - 1);
      PassNoIncrease(After(t0, edges, order, k - 1), edges, order);
      NoIncreaseTrans(t0, After(t0, edges, order, k - 1), After(t0, edges, order, k));
    }
  }

  /** On tables where no id of the order is a witness, an examined edge out
      of a finite node leads to a finite node at most its weight farther. */
  lemma NoWitnessEdge(t: Tables, edges: seq<Edge>, order: seq<string>, e: Edge)
    requires FirstWitness(t, edges, order).None?
    requires e.from in t.dist && e.to in t.dist && t.dist[e.from].Fin?
    requires exists j :: 0 <= j < |order| && Find(edges, order[j]) == Some(e)
    ensures t.dist[e.to].Fin? && t.dist[e.to].n <= t.dist[e.from].n + e.weight
  {
    var j :| 0 <= j < |order| && Find(edges, order[j]) == Some(e);
    assert !IsWitness(t, edges, order[j]);
  }

  /** Dropping the last edge of a walk of examined edges leaves one. */
  lemma WalkFront(keys: set<string>, edges: seq<Edge>, order: seq<string>, c: seq<Edge>)
    requires |c| > 1 && IsWalk(c) && Examined(keys, edges, order, c)
    ensures var front := c[..|c| - 1];
      IsWalk(front) && Examined(keys, edges, order, front)
      && front[0] == c[0] && front[|front| - 1].to == c[|c| - 1].from
      && Weight(c) == Weight(front) + c[|c| - 1].weight
  {
    var front := c[..|c| - 1];
    assert IsWalk(front) by {
      forall i | 0 < i < |front| ensures front[i - 1].to == front[i].from {
        assert front[i - 1] == c[i - 1] && front[i] == c[i];
      }
    }
    assert Examined(keys, edges, order, front) by {
      forall i | 0 <= i < |front|
        ensures && front[i].from in keys && front[i].to in keys
                && exists j :: 0 <= j < |order| && Find(edges, order[j]) == Some(front[i])
      {
        assert front[i] == c[i];
      }
    }
    assert front[|front| - 1] == c[|c| - 2];
  }

  /** On tables where no id of the order is a witness, following a walk of
      examined edges from a finite node keeps the distance finite, and the
      distance at its end exceeds the one at its start by at most the walk's
      weight. */
  lemma {:induction false} NoWitnessWalkBound(t: Tables, edges: seq<Edge>, order: seq<string>, c: seq<Edge>)
    requires FirstWitness(t, edges, order).None?
    requires c != [] && IsWalk(c) && Examined(t.dist.Keys, edges, order, c)
    requires t.dist[c[0].from].Fin?
    ensures t.dist[c[|c| - 1].to].Fin?
    ensures t.dist[c[|c| - 1].to].n <= t.dist[c[0].from].n + Weight(c)
    decreases |c|
  {
    var e := c[|c| - 1];
    if |c| > 1 {
      var front := c[..|c| - 1];
      WalkFront(t.dist.Keys, edges, order, c);
      NoWitnessWalkBound(t, edges, order, front);
      NoWitnessEdge(t, edges, order, e);
    } else {
      assert c[..0] == [];
      NoWitnessEdge(t, edges, order, e);
    }
  }

  /** On such tables every closed walk of examined edges through a finite
      node has non-negative weight. */
  lemma NoWitnessNoNegativeCycle(t: Tables, edges: seq<Edge>, order: seq<string>, c: seq<Edge>)
    requires FirstWitness(t, edges, order).None?
    requires c != [] && IsWalk(c) && Examined(t.dist.Keys, edges, order, c)
    requires c[|c| - 1].to == c[0].from && t.dist[c[0].from].Fin?
    ensures Weight(c) >= 0
  {
    NoWitnessWalkBound(t, edges, order, c);
  }

  /** The verification scan misses no negative cycle reachable from the
      source: when a walk `p` of examined edges leads from the source to a
      closed walk `c` of examined edges of negative weight, the scan on the
      tables after all passes finds a witness. */
  lemma NegativeCycleDetected(nodes: seq<string>, source: string, edges: seq<Edge>, order: seq<string>,
                              p: seq<Edge>, c: seq<Edge>)
    requires source in nodes
    requires IsWalk(p) && Examined((set x | x in nodes), edges, order, p)
    requires p == [] ==> c != [] && c[0].from == source
    requires p != [] ==> p[0].from == source && c != [] && p[|p| - 1].to == c[0].from
    requires c != [] && IsWalk(c) && Examined((set x | x in nodes), edges, order, c)
    requires c[|c| - 1].to == c[0].from && Weight(c) < 0
    ensures FirstWitness(After(Initial(nodes, source), edges, order, Passes(nodes)), edges, order).Some?
  {
    var t0 := Initial(nodes, source);
    var tf := After(t0, edges, order, Passes(nodes));
    AfterNoIncrease(t0, edges, order, Passes(nodes));
    assert tf.dist.Keys == set x | x in nodes;
    if FirstWitness(tf, edges, order).None? {
      assert DistLe(tf.dist[source], t0.dist[source]);
      if p != [] {
        NoWitnessWalkBound(tf, edges, order, p);
      }
      NoWitnessNoNegativeCycle(tf, edges, order, c);
      assert false;
    }
  }
}
