/** The replay flow of bellman-ford.js (`initializeDefaultSteps`): every edge
    examination of every pass becomes one step record holding a value snapshot
    of both tables, framed by an initialisation step and a terminal step that
    reports the verification scan. The five hard-coded nodes and source "a" of
    the original are generalised to a node list and a source id. */
module Replay {
  import opened Graph
  import opened Relaxation

  /** Which narrative a step carries: initialisation, a relaxation, the two
      "no change" sub-cases (`d[u] = ∞`, or the sum is not shorter), and the
      terminal negative-cycle check. */
  datatype Action = Initialize | Relaxed | FromInfinity | NotShorter | CycleCheck

  /** One element of `defaultAlgorithmSteps`; the narrative strings are
      represented by `action`. */
  datatype Step = Step(pass: nat, edge: Option<string>, action: Action,
                       dist: map<string, Dist>, pred: map<string, Option<string>>,
                       relaxedEdge: Option<string>,
                       hasNegativeCycle: bool, negativeCycleEdge: Option<string>)

  function Snapshot(s: Step): Tables {
    Tables(s.dist, s.pred)
  }

  function InitStep(t0: Tables): Step {
    Step(0, None, Initialize, t0.dist, t0.pred, None, false, None)
  }

  /** The step pushed after examining the resolved edge `e` (order id `id`) on
      tables `t`: the snapshot is taken after the relaxation. */
  function EdgeStep(t: Tables, e: Edge, id: string, pass: nat): Step {
    if CanRelax(t.dist, e) then
      var r := Relax(t, e);
      Step(pass, Some(id), Relaxed, r.dist, r.pred, Some(id), false, None)
    else if e.from in t.dist && t.dist[e.from] == Inf then
      Step(pass, Some(id), FromInfinity, t.dist, t.pred, None, false, None)
    else
      Step(pass, Some(id), NotShorter, t.dist, t.pred, None, false, None)
  }

  function CheckStep(pass: nat, t: Tables, found: Option<Edge>): Step {
    Step(pass, None, CycleCheck, t.dist, t.pred, None, found.Some?,
         if found.Some? then Some(found.value.id) else None)
  }

  /** The steps one pass pushes, starting from tables `t`. */
  function PassSteps(t: Tables, edges: seq<Edge>, ids: seq<string>, pass: nat): seq<Step>
    decreases |ids|
  {
    if ids == [] then []
    else match Find(edges, ids[0])
      case None => PassSteps(t, edges, ids[1..], pass)
      case Some(e) => [EdgeStep(t, e, ids[0], pass)] + PassSteps(Relax(t, e), edges, ids[1..], pass)
  }

  /** The steps of passes 1 to `k`. */
  function PassesSteps(t0: Tables, edges: seq<Edge>, order: seq<string>, k: nat): seq<Step> {
    if k == 0 then []
    else PassesSteps(t0, edges, order, k - 1) + PassSteps(After(t0, edges, order, k - 1), edges, order, k)
  }

  /** The whole trace: initialisation, all passes, the terminal check step. */
  function Trace(nodes: seq<string>, edges: seq<Edge>, order: seq<string>, source: string): seq<Step> {
    var t0 := Initial(nodes, source);
    var tf := After(t0, edges, order, Passes(nodes));
    [InitStep(t0)] + PassesSteps(t0, edges, order, Passes(nodes))
      + [CheckStep(|nodes|, tf, FirstWitness(tf, edges, order))]
  }

  /** `initializeDefaultSteps`: step 0, the `|nodes| - 1` passes, then the
      verification scan and the terminal step. */
  method RunTraced(nodes: seq<string>, edges: seq<Edge>, order: seq<string>, source: string)
    returns (steps: seq<Step>)
    ensures steps == Trace(nodes, edges, order, source)
  {
    var t0 := InitTables(nodes, source);
    steps := [InitStep(t0)];
    var dist, pred := t0.dist, t0.pred;
    var pass := 1;
    while pass <= |nodes| - 1
      invariant 1 <= pass <= Passes(nodes) + 1
      invariant Tables(dist, pred) == After(t0, edges, order, pass - 1)
      invariant steps == [InitStep(t0)] + PassesSteps(t0, edges, order, pass - 1)
    {
      var passSteps;
      dist, pred, passSteps := TracedPass(dist, pred, edges, order, pass);
      assert PassesSteps(t0, edges, order, pass)
             == PassesSteps(t0, edges, order, pass - 1) + passSteps;
      steps := steps + passSteps;
      pass := pass + 1;
    }
    assert pass - 1 == Passes(nodes);
    var tf := Tables(dist, pred);
    assert tf == After(Initial(nodes, source), edges, order, Passes(nodes));
    var found := ScanForNegativeCycle(tf, edges, order);
    steps := steps + [CheckStep(|nodes|, tf, found)];
  }

  /** One pass of the replay flow: the inner `for` over the edge order, which
      relaxes in place and pushes a step with a copy of both tables for every
      id that resolves. */
  method TracedPass(dist0: map<string, Dist>, pred0: map<string, Option<string>>,
                    edges: seq<Edge>, order: seq<string>, pass: nat)
    returns (dist: map<string, Dist>, pred: map<string, Option<string>>, steps: seq<Step>)
    ensures Tables(dist, pred) == PassOf(Tables(dist0, pred0), edges, order)
    ensures steps == PassSteps(Tables(dist0, pred0), edges, order, pass)
  {
    dist, pred, steps := dist0, pred0, [];
    var i := 0;
    while i < |order|
      invariant 0 <= i <= |order|
      invariant PassOf(Tables(dist, pred), edges, order[i..]) == PassOf(Tables(dist0, pred0), edges, order)
      invariant steps + PassSteps(Tables(dist, pred), edges, order[i..], pass)
                == PassSteps(Tables(dist0, pred0), edges, order, pass)
    {
      assert order[i..][1..] == order[i + 1..];
      ghost var t := Tables(dist, pred);
      var edgeId := order[i];
      var edge := Find(edges, edgeId);
      if edge.Some? {
        var u, v, weight := edge.value.from, edge.value.to, edge.value.weight;
        var action := NotShorter;
        if u in dist && v in dist && dist[u].Fin? && DistLt(Fin(dist[u].n + weight), dist[v]) {
          dist := dist[v := Fin(dist[u].n + weight)];
          pred := pred[v := Some(u)];
          action := Relaxed;
        } else if u in dist && dist[u] == Inf {
          action := FromInfinity;
        }
        var step := Step(pass, Some(edgeId), action, dist, pred,
                         if action == Relaxed then Some(edgeId) else None, false, None);
        assert Tables(dist, pred) == Relax(t, edge.value);
        assert step == EdgeStep(t, edge.value, edgeId, pass);
        steps := steps + [step];
      }
      i := i + 1;
    }
    assert order[|order|..] == [];
  }

  // ---------------------------------------------------------------------------
  // Shape of the trace

  /** A pass pushes one step per resolved id, in order, all tagged with `pass`. */
  lemma {:induction false} PassStepsShape(t: Tables, edges: seq<Edge>, ids: seq<string>, pass: nat)
    ensures var s := PassSteps(t, edges, ids, pass); var r := Resolved(edges, ids);
      && |s| == |r|
      && forall j :: 0 <= j < |s| ==> s[j].pass == pass && s[j].edge == Some(r[j])
    decreases |ids|
  {
    if ids != [] {
      PassStepsShape(Examine(t, edges, ids[0]), edges, ids[1..], pass);
    }
  }

  /** `q * k <= i < (q + 1) * k` determines `i / k` and `i % k`. */
  lemma DivModOfBlock(i: int, q: nat, k: nat)
    requires k > 0 && q * k <= i < q * k + k
    ensures i / k == q && i % k == i - q * k
  {
    var q', r' := i / k, i % k;
    assert i == q' * k + r' && 0 <= r' < k;
    var r := i - q * k;
    assert (q - q') * k == r' - r by {
      assert (q - q') * k == q * k - q' * k;
    }
    if q - q' >= 1 {
      MulAtLeast(q - q', k);
    } else if q' - q >= 1 {
      MulAtLeast(q' - q, k);
    }
  }

  lemma MulAtLeast(a: int, k: int)
    requires a >= 1 && k > 0
    ensures a * k >= k
  {
    assert a * k == (a - 1) * k + k;
    assert (a - 1) * k >= 0;
  }

  /** Passes 1 to `m` push `m * k` steps, `k` resolved ids each; step `i`
      belongs to pass `i / k + 1` and examines resolved id number `i % k`. */
  lemma {:induction false} PassesStepsShape(t0: Tables, edges: seq<Edge>, order: seq<string>, m: nat)
    ensures var s := PassesSteps(t0, edges, order, m); var r := Resolved(edges, order); var k := |r|;
      && |s| == m * k
      && forall i :: 0 <= i < |s| ==> k > 0 && s[i].pass == i / k + 1 && s[i].edge == Some(r[i % k])
  {
    if m > 0 {
      var r := Resolved(edges, order);
      var k := |r|;
      var prev := PassesSteps(t0, edges, order, m - 1);
      var last := PassSteps(After(t0, edges, order, m - 1), edges, order, m);
      PassesStepsShape(t0, edges, order, m - 1);
      PassStepsShape(After(t0, edges, order, m - 1), edges, order, m);
      assert |prev| == (m - 1) * k;
      var s := prev + last;
      assert |s| == m * k;
      forall i | 0 <= i < |s| ensures k > 0 && s[i].pass == i / k + 1 && s[i].edge == Some(r[i % k]) {
        if i >= |prev| {
          DivModOfBlock(i, m - 1, k);
          assert s[i] == last[i - (m - 1) * k];
        }
      }
    }
  }

  /** The trace has `1 + P * k + 1` steps for `P = |nodes| - 1` passes and `k`
      resolved ids; step 0 holds the initial tables; step `i` with
      `1 <= i <= P * k` belongs to pass `(i - 1) / k + 1` and examines the
      resolved id number `(i - 1) % k`; the last step is the check of pass
      `|nodes|`. */
  lemma TraceShape(nodes: seq<string>, edges: seq<Edge>, order: seq<string>, source: string)
    ensures var s := Trace(nodes, edges, order, source); var r := Resolved(edges, order);
      && |s| == 1 + Passes(nodes) * |r| + 1
      && s[0].pass == 0 && s[0].edge == None && s[0].relaxedEdge == None
      && s[0].dist.Keys == s[0].pred.Keys == set x | x in nodes
      && (forall x :: x in s[0].dist ==> s[0].dist[x] == if x == source then Fin(0) else Inf)
      && (forall x :: x in s[0].pred ==> s[0].pred[x] == None)
      && (forall i :: 1 <= i <= Passes(nodes) * |r| ==>
            |r| > 0 && s[i].pass == (i - 1) / |r| + 1 && s[i].edge == Some(r[(i - 1) % |r|]))
      && s[|s| - 1].pass == |nodes| && s[|s| - 1].edge == None && s[|s| - 1].action == CycleCheck
  {
    var t0 := Initial(nodes, source);
    var mid := PassesSteps(t0, edges, order, Passes(nodes));
    PassesStepsShape(t0, edges, order, Passes(nodes));
    var s := Trace(nodes, edges, order, source);
    forall i | 1 <= i <= |mid| ensures s[i] == mid[i - 1] { }
  }

  // ---------------------------------------------------------------------------
  // How consecutive steps relate

  /** Step `s` follows a step whose snapshot is `a`: its snapshot is
      `a` relaxed along the edge it names (or `a` itself for the check step),
      no distance went up, `relaxedEdge` is set exactly when the tables
      changed and then names the examined edge, and the table invariant is
      carried over. */
  ghost predicate StepLink(a: Tables, s: Step, edges: seq<Edge>, source: string) {
    && (s.edge.Some? ==> Find(edges, s.edge.value).Some?
                         && Snapshot(s) == Relax(a, Find(edges, s.edge.value).value))
    && (s.edge.None? ==> Snapshot(s) == a)
    && NoIncrease(a, Snapshot(s))
    && (s.relaxedEdge.Some? <==> Snapshot(s) != a)
    && (s.relaxedEdge.Some? ==> s.relaxedEdge == s.edge && s.action == Relaxed)
    && (Consistent(a, source) ==> Consistent(Snapshot(s), source))
  }

  /** The part of `StepLink` the construction of the trace establishes
      directly; `CoreLink` derives the rest. */
  ghost predicate StepCore(a: Tables, s: Step, edges: seq<Edge>) {
    && (s.edge.Some? ==> Find(edges, s.edge.value).Some?
                         && Snapshot(s) == Relax(a, Find(edges, s.edge.value).value)
                         && (s.relaxedEdge.Some? <==> CanRelax(a.dist, Find(edges, s.edge.value).value)))
    && (s.edge.None? ==> Snapshot(s) == a && s.relaxedEdge.None?)
    && (s.relaxedEdge.Some? ==> s.relaxedEdge == s.edge && s.action == Relaxed)
  }

  lemma CoreLink(a: Tables, s: Step, edges: seq<Edge>, source: string)
    requires StepCore(a, s, edges)
    ensures StepLink(a, s, edges, source)
  {
    if s.edge.Some? {
      RelaxEffect(a, Find(edges, s.edge.value).value, source);
    }
  }

  function Before(t: Tables, steps: seq<Step>, i: nat): Tables
    requires i <= |steps|
  {
    if i == 0 then t else Snapshot(steps[i - 1])
  }

  ghost predicate LinkedFrom(t: Tables, steps: seq<Step>, edges: seq<Edge>) {
    forall i :: 0 <= i < |steps| ==> StepCore(Before(t, steps, i), steps[i], edges)
  }

  lemma LinkedAppend(t: Tables, a: seq<Step>, b: seq<Step>, edges: seq<Edge>)
    requires LinkedFrom(t, a, edges)
    requires LinkedFrom(Before(t, a, |a|), b, edges)
    ensures LinkedFrom(t, a + b, edges)
    ensures Before(t, a + b, |a + b|) == Before(Before(t, a, |a|), b, |b|)
  {
    var s := a + b;
    forall i | 0 <= i < |s| ensures StepCore(Before(t, s, i), s[i], edges) {
      if i < |a| {
        assert s[i] == a[i] && Before(t, s, i) == Before(t, a, i);
      } else {
        assert s[i] == b[i - |a|];
        assert Before(t, s, i) == Before(Before(t, a, |a|), b, i - |a|);
      }
    }
  }

  lemma {:induction false} PassStepsLinked(t: Tables, edges: seq<Edge>, ids: seq<string>, pass: nat)
    ensures var s := PassSteps(t, edges, ids, pass);
      LinkedFrom(t, s, edges) && Before(t, s, |s|) == PassOf(t, edges, ids)
    decreases |ids|
  {
    if ids != [] {
      var t1 := Examine(t, edges, ids[0]);
      PassStepsLinked(t1, edges, ids[1..], pass);
      match Find(edges, ids[0]) {
        case None =>
        case Some(e) =>
          var head := [EdgeStep(t, e, ids[0], pass)];
          assert StepCore(t, head[0], edges);
          LinkedAppend(t, head, PassSteps(t1, edges, ids[1..], pass), edges);
      }
    }
  }

  lemma {:induction false} PassesStepsLinked(t0: Tables, edges: seq<Edge>, order: seq<string>, m: nat)
    ensures var s := PassesSteps(t0, edges, order, m);
      LinkedFrom(t0, s, edges) && Before(t0, s, |s|) == After(t0, edges, order, m)
  {
    if m > 0 {
      var a := PassesSteps(t0, edges, order, m - 1);
      var b := PassSteps(After(t0, edges, order, m - 1), edges, order, m);
      PassesStepsLinked(t0, edges, order, m - 1);
      PassStepsLinked(After(t0, edges, order, m - 1), edges, order, m);
      assert Before(t0, a, |a|) == After(t0, edges, order, m - 1);
      LinkedAppend(t0, a, b, edges);
      assert PassesSteps(t0, edges, order, m) == a + b;
    }
  }

  /** After the initialisation step, the trace is linked step by step from
      the initial tables. */
  lemma TraceTailLinked(nodes: seq<string>, edges: seq<Edge>, order: seq<string>, source: string)
    ensures var s := Trace(nodes, edges, order, source);
      |s| >= 1 && Snapshot(s[0]) == Initial(nodes, source)
      && LinkedFrom(Initial(nodes, source), s[1..], edges)
  {
    var t0 := Initial(nodes, source);
    var tf := After(t0, edges, order, Passes(nodes));
    var mid := PassesSteps(t0, edges, order, Passes(nodes));
    var check := [CheckStep(|nodes|, tf, FirstWitness(tf, edges, order))];
    PassesStepsLinked(t0, edges, order, Passes(nodes));
    assert Before(t0, mid, |mid|) == tf;
    assert StepCore(tf, check[0], edges);
    assert LinkedFrom(tf, check, edges);
    LinkedAppend(t0, mid, check, edges);
    var s := Trace(nodes, edges, order, source);
    assert s == [InitStep(t0)] + (mid + check);
    assert s[1..] == mid + check;
  }

  /** Every step after the first relates to its predecessor by `StepLink`:
      each snapshot is the previous one relaxed along the examined edge, no
      distance ever increases from one step to the next, and `relaxedEdge` is
      non-null exactly on the steps where the tables changed. */
  lemma TraceLinked(nodes: seq<string>, edges: seq<Edge>, order: seq<string>, source: string)
    ensures var s := Trace(nodes, edges, order, source);
      forall i :: 1 <= i < |s| ==> StepLink(Snapshot(s[i - 1]), s[i], edges, source)
  {
    var s := Trace(nodes, edges, order, source);
    var t0 := Initial(nodes, source);
    TraceTailLinked(nodes, edges, order, source);
    var rest := s[1..];
    forall i | 1 <= i < |s| ensures StepLink(Snapshot(s[i - 1]), s[i], edges, source) {
      assert s[i] == rest[i - 1];
      assert Snapshot(s[i - 1]) == Before(t0, rest, i - 1);
      assert StepCore(Before(t0, rest, i - 1), rest[i - 1], edges);
      CoreLink(Snapshot(s[i - 1]), s[i], edges, source);
    }
  }

  /** Distances never increase along the trace: for steps `i <= j`, every
      distance in step `j` is at most its value in step `i`. */
  lemma TraceMonotone(nodes: seq<string>, edges: seq<Edge>, order: seq<string>, source: string)
    ensures var s := Trace(nodes, edges, order, source);
      forall i, j :: 0 <= i <= j < |s| ==> NoIncrease(Snapshot(s[i]), Snapshot(s[j]))
  {
    var s := Trace(nodes, edges, order, source);
    TraceLinked(nodes, edges, order, source);
    forall i, j | 0 <= i <= j < |s| ensures NoIncrease(Snapshot(s[i]), Snapshot(s[j])) {
      MonotoneFrom(s, edges, source, i, j);
    }
  }

  lemma {:induction false} MonotoneFrom(s: seq<Step>, edges: seq<Edge>, source: string, i: nat, j: nat)
    requires i <= j < |s|
    requires forall k :: 1 <= k < |s| ==> StepLink(Snapshot(s[k - 1]), s[k], edges, source)
    ensures NoIncrease(Snapshot(s[i]), Snapshot(s[j]))
    decreases j - i
  {
    if i < j {
      MonotoneFrom(s, edges, source, i, j - 1);
      assert StepLink(Snapshot(s[j - 1]), s[j], edges, source);
      NoIncreaseTrans(Snapshot(s[i]), Snapshot(s[j - 1]), Snapshot(s[j]));
    }
  }

  /** Every snapshot of the trace satisfies the table invariant. */
  lemma TraceConsistent(nodes: seq<string>, edges: seq<Edge>, order: seq<string>, source: string)
    ensures var s := Trace(nodes, edges, order, source);
      forall i :: 0 <= i < |s| ==> Consistent(Snapshot(s[i]), source)
  {
    var s := Trace(nodes, edges, order, source);
    TraceLinked(nodes, edges, order, source);
    InitialConsistent(nodes, source);
    forall i | 0 <= i < |s| ensures Consistent(Snapshot(s[i]), source) {
      ConsistentUpTo(s, edges, source, i);
    }
  }

  lemma {:induction false} ConsistentUpTo(s: seq<Step>, edges: seq<Edge>, source: string, i: nat)
    requires i < |s| && Consistent(Snapshot(s[0]), source)
    requires forall k :: 1 <= k < |s| ==> StepLink(Snapshot(s[k - 1]), s[k], edges, source)
    ensures Consistent(Snapshot(s[i]), source)
  {
    if i > 0 {
      ConsistentUpTo(s, edges, source, i - 1);
      assert StepLink(Snapshot(s[i - 1]), s[i], edges, source);
    }
  }

  /** The terminal step holds the tables after all passes (the same tables the
      run flow returns), and reports a negative cycle exactly when some id of
      the order still satisfies the relaxation guard on them, naming the first
      such id. */
  lemma TraceVerdict(nodes: seq<string>, edges: seq<Edge>, order: seq<string>, source: string)
    ensures var s := Trace(nodes, edges, order, source);
      var tf := After(Initial(nodes, source), edges, order, Passes(nodes));
      && Snapshot(s[|s| - 1]) == tf
      && s[|s| - 1].relaxedEdge == None
      && (s[|s| - 1].hasNegativeCycle <==> exists i :: 0 <= i < |order| && IsWitness(tf, edges, order[i]))
      && (s[|s| - 1].hasNegativeCycle ==>
            exists i :: 0 <= i < |order| && IsWitness(tf, edges, order[i])
                        && s[|s| - 1].negativeCycleEdge == Some(order[i])
                        && forall j :: 0 <= j < i ==> !IsWitness(tf, edges, order[j]))
      && (!s[|s| - 1].hasNegativeCycle ==> s[|s| - 1].negativeCycleEdge == None)
  {
    var tf := After(Initial(nodes, source), edges, order, Passes(nodes));
    var w := FirstWitness(tf, edges, order);
    if w.Some? {
      var i :| 0 <= i < |order| && IsWitness(tf, edges, order[i]) && Find(edges, order[i]) == w
               && forall j :: 0 <= j < i ==> !IsWitness(tf, edges, order[j]);
      assert w.value.id == order[i];
    }
  }
}
