/** The run flow of bellman-ford.js (`runBellmanFordAlgorithm`): the same
    initialisation and relaxation rule over a caller-given node list and
    source, an early exit after a pass that relaxes nothing, the verification
    scan, and the backward predecessor walk that extracts a negative cycle. */
module Run {
  import opened Graph
  import opened Relaxation

  /** The object the run flow returns. */
  datatype RunResult = RunResult(dist: map<string, Dist>, pred: map<string, Option<string>>,
                                 hasNegativeCycle: bool, negativeCycle: seq<string>)

  // ---------------------------------------------------------------------------
  // Cycle extraction

  /** `predecessor[x]`, where a missing key reads as `undefined`, which the
      walk treats like `null`. */
  function Lookup(pred: map<string, Option<string>>, x: string): Option<string> {
    if x in pred then pred[x] else None
  }

  /** JavaScript truthiness of the walk's `current`: `null`, `undefined` and
      the empty string are falsy. */
  predicate Truthy(c: Option<string>) {
    c.Some? && c.value != ""
  }

  ghost predicate Distinct(s: seq<string>) {
    forall i, j :: 0 <= i < j < |s| ==> s[i] != s[j]
  }

  /** Each element's predecessor is the element before it. */
  ghost predicate Chain(pred: map<string, Option<string>>, s: seq<string>) {
    forall i :: 0 < i < |s| ==> Lookup(pred, s[i]) == Some(s[i - 1])
  }

  /** The index of the first occurrence of `x` (`indexOf`). */
  function IndexOf(s: seq<string>, x: string): (k: nat)
    requires x in s
    ensures k < |s| && s[k] == x && forall j :: 0 <= j < k ==> s[j] != x
  {
    if s[0] == x then 0 else 1 + IndexOf(s[1..], x)
  }

  /** The `while` loop of the extraction, as a function of its state: `trail`
      is `negativeCycle` (built by `unshift`, so its last element is where the
      walk began) and `current` the node about to be visited; `visited` is
      always the set of elements of `trail`. */
  function Walk(pred: map<string, Option<string>>, source: string, n: nat,
                trail: seq<string>, current: Option<string>): (seq<string>, Option<string>)
    requires |trail| <= 2 * n
    decreases 2 * n - |trail|
  {
    if !Truthy(current) || current.value in trail then (trail, current)
    else
      var trail' := [current.value] + trail;
      var next := Lookup(pred, current.value);
      if next == Some(source) || (next.Some? && next.value in trail' && trail'[0] != next.value)
         || |trail'| > 2 * n
      then (trail', next)
      else Walk(pred, source, n, trail', next)
  }

  /** The walk stopped on a node it had already recorded. */
  predicate FoundRepeat(pred: map<string, Option<string>>, v: string, source: string, n: nat) {
    var (trail, current) := Walk(pred, source, n, [], Some(v));
    Truthy(current) && current.value in trail
  }

  /** The extraction as written: walk back from `v`, then
      `negativeCycle.slice(negativeCycle.indexOf(current))`. */
  function CycleAsWritten(pred: map<string, Option<string>>, v: string, source: string, n: nat): seq<string> {
    var (trail, current) := Walk(pred, source, n, [], Some(v));
    if Truthy(current) && current.value in trail then trail[IndexOf(trail, current.value)..] else trail
  }

  /** The extraction as evidently intended: keep the part of the trail from
      the newest node up to the repeated node, which is the cycle itself. */
  function CycleClosed(pred: map<string, Option<string>>, v: string, source: string, n: nat): seq<string> {
    var (trail, current) := Walk(pred, source, n, [], Some(v));
    if Truthy(current) && current.value in trail then trail[..IndexOf(trail, current.value) + 1] else trail
  }

  /** The list closes up: the predecessor of its first element is its last. */
  ghost predicate ClosesUp(pred: map<string, Option<string>>, s: seq<string>) {
    s != [] && Lookup(pred, s[0]) == Some(s[|s| - 1])
  }

  /** What the walk keeps true of its state. */
  ghost predicate WalkInv(pred: map<string, Option<string>>, v: string,
                          trail: seq<string>, current: Option<string>) {
    && (trail == [] ==> current == Some(v))
    && (trail != [] ==> trail[|trail| - 1] == v && current == Lookup(pred, trail[0]))
    && (forall i :: 0 <= i < |trail| ==> trail[i] != "")
    && Distinct(trail)
    && Chain(pred, trail)
  }

  lemma {:induction false} WalkKeeps(pred: map<string, Option<string>>, source: string, n: nat, v: string,
                                     trail: seq<string>, current: Option<string>)
    requires |trail| <= 2 * n && WalkInv(pred, v, trail, current)
    ensures var (t, c) := Walk(pred, source, n, trail, current);
      WalkInv(pred, v, t, c) && |trail| <= |t| <= 2 * n + 1
      && (Truthy(current) && current.value !in trail ==> t != [])
    decreases 2 * n - |trail|
  {
    if Truthy(current) && current.value !in trail {
      var trail' := [current.value] + trail;
      var next := Lookup(pred, current.value);
      assert WalkInv(pred, v, trail', next) by {
        forall i | 0 < i < |trail'| ensures Lookup(pred, trail'[i]) == Some(trail'[i - 1]) {
          if i > 1 { assert trail'[i] == trail[i - 1] && trail'[i - 1] == trail[i - 2]; }
        }
      }
      if !(next == Some(source) || (next.Some? && next.value in trail' && trail'[0] != next.value)
           || |trail'| > 2 * n) {
        WalkKeeps(pred, source, n, v, trail', next);
      }
    }
  }

  /** The loop of the extraction, with its `visited` set and its two `break`s. */
  method WalkBack(pred: map<string, Option<string>>, v: string, source: string, n: nat)
    returns (trail: seq<string>, current: Option<string>)
    ensures (trail, current) == Walk(pred, source, n, [], Some(v))
  {
    current := Some(v);
    trail := [];
    var visited: set<string> := {};
    while Truthy(current) && current.value !in visited
      invariant visited == set x | x in trail
      invariant |trail| <= 2 * n
      invariant Walk(pred, source, n, trail, current) == Walk(pred, source, n, [], Some(v))
      decreases 2 * n - |trail|
    {
      visited := visited + {current.value};
      trail := [current.value] + trail;
      current := Lookup(pred, current.value);
      if current == Some(source) || (current.Some? && current.value in trail && trail[0] != current.value) {
        break;
      }
      if |trail| > 2 * n {
        break;
      }
    }
  }

  /** Lines 486-512 as written. When the witness target `v` is a non-empty id
      the list is non-empty and ends with `v`; it has no repeated node; every
      element's predecessor is the element before it, so it is a suffix of the
      backward predecessor walk from `v`; and it has at most `2n + 1` nodes. */
  method ExtractCycle(pred: map<string, Option<string>>, v: string, source: string, n: nat)
    returns (cycle: seq<string>)
    ensures cycle == CycleAsWritten(pred, v, source, n)
    ensures v != "" ==> cycle != [] && cycle[|cycle| - 1] == v
    ensures Distinct(cycle) && Chain(pred, cycle)
    ensures |cycle| <= 2 * n + 1
  {
    var trail, current := WalkBack(pred, v, source, n);
    cycle := trail;
    if Truthy(current) && current.value in trail {
      var startIndex := IndexOf(trail, current.value);
      cycle := trail[startIndex..];
    }
    CycleAsWrittenShape(pred, v, source, n);
  }

  lemma CycleAsWrittenShape(pred: map<string, Option<string>>, v: string, source: string, n: nat)
    ensures var r := CycleAsWritten(pred, v, source, n);
      && (v != "" ==> r != [] && r[|r| - 1] == v)
      && Distinct(r) && Chain(pred, r) && |r| <= 2 * n + 1
  {
    WalkKeeps(pred, source, n, v, [], Some(v));
    var (trail, current) := Walk(pred, source, n, [], Some(v));
    if Truthy(current) && current.value in trail {
      var k := IndexOf(trail, current.value);
      var r := trail[k..];
      assert Chain(pred, r) by {
        forall i | 0 < i < |r| ensures Lookup(pred, r[i]) == Some(r[i - 1]) {
          assert r[i] == trail[k + i] && r[i - 1] == trail[k + i - 1];
        }
      }
    }
  }

  /** In a chain, the predecessor of element `k` is element `k - 1`. */
  lemma ChainStep(pred: map<string, Option<string>>, s: seq<string>, k: nat)
    requires Chain(pred, s) && 0 < k < |s|
    ensures Lookup(pred, s[k]) == Some(s[k - 1])
  {
  }

  /** The extraction as written yields a cycle of the predecessor table in
      one case only: the one-node list `[v]` when `v` is its own predecessor.
      Otherwise the kept suffix starts at the repeated node, whose
      predecessor is the node recorded just before it, not `v`. */
  lemma CycleAsWrittenClosesOnlyOnSelfLoop(pred: map<string, Option<string>>, v: string, source: string, n: nat)
    ensures var r := CycleAsWritten(pred, v, source, n);
      ClosesUp(pred, r) ==> r == [v] && Lookup(pred, v) == Some(v)
  {
    WalkKeeps(pred, source, n, v, [], Some(v));
    var (trail, current) := Walk(pred, source, n, [], Some(v));
    var r := CycleAsWritten(pred, v, source, n);
    if ClosesUp(pred, r) {
      if Truthy(current) && current.value in trail {
        var k := IndexOf(trail, current.value);
        assert r == trail[k..] && r[0] == trail[k] && r[|r| - 1] == trail[|trail| - 1];
        if k > 0 {
          ChainStep(pred, trail, k);
          assert false;
        }
        assert trail[0] == trail[|trail| - 1];
      } else {
        assert false;
      }
    }
  }

  /** The corrected extraction: the same walk and the prefix slice. Whenever
      the walk stopped on a repeated node, the list is a cycle of the
      predecessor graph: no repeated node, each element's predecessor is the
      element before it, and the first element's predecessor is the last. */
  method ExtractCycleClosed(pred: map<string, Option<string>>, v: string, source: string, n: nat)
    returns (cycle: seq<string>)
    ensures cycle == CycleClosed(pred, v, source, n)
    ensures Distinct(cycle) && Chain(pred, cycle)
    ensures FoundRepeat(pred, v, source, n) ==> ClosesUp(pred, cycle)
  {
    var trail, current := WalkBack(pred, v, source, n);
    cycle := trail;
    if Truthy(current) && current.value in trail {
      var repeatIndex := IndexOf(trail, current.value);
      cycle := trail[..repeatIndex + 1];
    }
    CycleClosedShape(pred, v, source, n);
  }

  lemma CycleClosedShape(pred: map<string, Option<string>>, v: string, source: string, n: nat)
    ensures var r := CycleClosed(pred, v, source, n);
      && Distinct(r) && Chain(pred, r)
      && (FoundRepeat(pred, v, source, n) ==> ClosesUp(pred, r))
  {
    WalkKeeps(pred, source, n, v, [], Some(v));
    var (trail, current) := Walk(pred, source, n, [], Some(v));
    if Truthy(current) && current.value in trail {
      var k := IndexOf(trail, current.value);
      var r := trail[..k + 1];
      assert r[0] == trail[0] && r[|r| - 1] == trail[k];
    }
  }

  // ---------------------------------------------------------------------------
  // The run

  /** `runBellmanFordAlgorithm(source, nodes, edges, order)`. The returned
      tables are those of all `|nodes| - 1` passes even though the loop may
      stop early; the flag is set exactly when the verification scan finds an
      edge that still relaxes, and the cycle is then extracted, as written,
      from that edge's target: a list without repeats, ending with the
      target, in which each element's predecessor is the element before it. */
  method RunBellmanFord(source: string, nodes: seq<string>, edges: seq<Edge>, order: seq<string>)
    returns (r: RunResult)
    ensures Tables(r.dist, r.pred) == After(Initial(nodes, source), edges, order, Passes(nodes))
    ensures var w := FirstWitness(Tables(r.dist, r.pred), edges, order);
      && r.hasNegativeCycle == w.Some?
      && r.negativeCycle == (if w.Some? then CycleAsWritten(r.pred, w.value.to, source, |nodes|) else [])
      && (w.Some? && w.value.to != "" ==> r.negativeCycle != [] && r.negativeCycle[|r.negativeCycle| - 1] == w.value.to)
    ensures Distinct(r.negativeCycle) && Chain(r.pred, r.negativeCycle)
    ensures |r.negativeCycle| <= 2 * |nodes| + 1
  {
    var dist, pred, passesRun := RunPasses(source, nodes, edges, order);
    var tf := Tables(dist, pred);
    var found := ScanForNegativeCycle(tf, edges, order);
    if found.Some? {
      var cycle := ExtractCycle(pred, found.value.to, source, |nodes|);
      r := RunResult(dist, pred, true, cycle);
    } else {
      r := RunResult(dist, pred, false, []);
    }
  }

  /** The run flow with the corrected extraction: the same tables and flag,
      and a list without repeats in which each element's predecessor is the
      element before it; whenever the walk back from the witness target stops
      on a node it had already recorded, that list is a cycle of the
      predecessor table. */
  method RunBellmanFordClosed(source: string, nodes: seq<string>, edges: seq<Edge>, order: seq<string>)
    returns (r: RunResult)
    ensures Tables(r.dist, r.pred) == After(Initial(nodes, source), edges, order, Passes(nodes))
    ensures var w := FirstWitness(Tables(r.dist, r.pred), edges, order);
      && r.hasNegativeCycle == w.Some?
      && r.negativeCycle == (if w.Some? then CycleClosed(r.pred, w.value.to, source, |nodes|) else [])
      && (w.Some? && FoundRepeat(r.pred, w.value.to, source, |nodes|) ==> ClosesUp(r.pred, r.negativeCycle))
    ensures Distinct(r.negativeCycle) && Chain(r.pred, r.negativeCycle)
  {
    var dist, pred, passesRun := RunPasses(source, nodes, edges, order);
    var tf := Tables(dist, pred);
    var found := ScanForNegativeCycle(tf, edges, order);
    if found.Some? {
      var cycle := ExtractCycleClosed(pred, found.value.to, source, |nodes|);
      r := RunResult(dist, pred, true, cycle);
    } else {
      r := RunResult(dist, pred, false, []);
    }
  }

  /** Lines 415-465: the initialisation and the passes with their early exit.
      The tables are those of all `|nodes| - 1` passes. The ghost `passesRun`
      counts the passes performed: at most `|nodes| - 1`, every pass but the
      last changed the tables, and a run that stopped sooner stopped after a
      pass that changed nothing, on tables where no edge still relaxes. */
  method RunPasses(source: string, nodes: seq<string>, edges: seq<Edge>, order: seq<string>)
    returns (dist: map<string, Dist>, pred: map<string, Option<string>>, ghost passesRun: nat)
    ensures Tables(dist, pred) == After(Initial(nodes, source), edges, order, Passes(nodes))
    ensures passesRun <= Passes(nodes)
    ensures forall q :: 0 <= q < passesRun - 1 ==>
              After(Initial(nodes, source), edges, order, q + 1) != After(Initial(nodes, source), edges, order, q)
    ensures passesRun < Passes(nodes) ==>
              && passesRun >= 1
              && After(Initial(nodes, source), edges, order, passesRun)
                 == After(Initial(nodes, source), edges, order, passesRun - 1)
              && FirstWitness(Tables(dist, pred), edges, order).None?
  {
    var t0 := InitTables(nodes, source);
    dist, pred := t0.dist, t0.pred;
    passesRun := 0;
    var pass := 1;
    while pass <= |nodes| - 1
      invariant 1 <= pass <= Passes(nodes) + 1 && passesRun == pass - 1
      invariant Tables(dist, pred) == After(t0, edges, order, pass - 1)
      invariant forall q :: 0 <= q < pass - 1 ==> After(t0, edges, order, q + 1) != After(t0, edges, order, q)
    {
      ghost var start := Tables(dist, pred);
      var relaxed;
      dist, pred, relaxed := RelaxPass(dist, pred, edges, order);
      passesRun := pass;
      if !relaxed {
        StableFrom(t0, edges, order, pass - 1, Passes(nodes));
        NoWitnessIffStable(start, edges, order);
        break;
      }
      pass := pass + 1;
    }
  }

  /** One pass of the run flow: the inner `for` over the edge order, relaxing
      in place and recording in `relaxed` whether any edge relaxed, which is
      exactly when the pass changed the tables. */
  method RelaxPass(dist0: map<string, Dist>, pred0: map<string, Option<string>>,
                   edges: seq<Edge>, order: seq<string>)
    returns (dist: map<string, Dist>, pred: map<string, Option<string>>, relaxed: bool)
    ensures Tables(dist, pred) == PassOf(Tables(dist0, pred0), edges, order)
    ensures relaxed <==> Tables(dist, pred) != Tables(dist0, pred0)
  {
    dist, pred, relaxed := dist0, pred0, false;
    ghost var lowered: string := "";
    var i := 0;
    while i < |order|
      invariant 0 <= i <= |order|
      invariant PassOf(Tables(dist, pred), edges, order[i..]) == PassOf(Tables(dist0, pred0), edges, order)
      invariant NoIncrease(Tables(dist0, pred0), Tables(dist, pred))
      invariant !relaxed ==> Tables(dist, pred) == Tables(dist0, pred0)
      invariant relaxed ==> lowered in dist && lowered in dist0 && DistLt(dist[lowered], dist0[lowered])
    {
      assert order[i..][1..] == order[i + 1..];
      ghost var t := Tables(dist, pred);
      var edge := Find(edges, order[i]);
      if edge.Some? {
        var u, v, weight := edge.value.from, edge.value.to, edge.value.weight;
        RelaxEffect(t, edge.value, "");
        if u in dist && v in dist && dist[u].Fin? && DistLt(Fin(dist[u].n + weight), dist[v]) {
          dist := dist[v := Fin(dist[u].n + weight)];
          pred := pred[v := Some(u)];
          relaxed := true;
          lowered := v;
        }
        assert Tables(dist, pred) == Relax(t, edge.value);
        NoIncreaseTrans(Tables(dist0, pred0), t, Tables(dist, pred));
      }
      i := i + 1;
    }
    assert order[|order|..] == [];
  }
}
