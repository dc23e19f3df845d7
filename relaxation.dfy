/** The pass structure shared by both flows of bellman-ford.js: one pass walks
    the explicit edge order, resolving each id with `find` and relaxing the
    edge it names; the verification scan looks for the first edge that would
    still relax. */
module Relaxation {
  import opened Graph

  /** One iteration of the inner `for` loop: an id that does not resolve is
      skipped (`if (!edge) continue`), a resolved edge is relaxed. */
  function Examine(t: Tables, edges: seq<Edge>, id: string): Tables {
    match Find(edges, id)
    case None => t
    case Some(e) => Relax(t, e)
  }

  /** The tables after examining the ids of `ids` in order, starting from `t`. */
  function PassOf(t: Tables, edges: seq<Edge>, ids: seq<string>): Tables
    decreases |ids|
  {
    if ids == [] then t else PassOf(Examine(t, edges, ids[0]), edges, ids[1..])
  }

  /** The tables after `k` full passes over `order`. */
  function After(t0: Tables, edges: seq<Edge>, order: seq<string>, k: nat): Tables {
    if k == 0 then t0 else PassOf(After(t0, edges, order, k - 1), edges, order)
  }

  /** `for (pass = 1; pass <= nodes.length - 1; pass++)` runs this many passes. */
  function Passes(nodes: seq<string>): nat {
    if |nodes| == 0 then 0 else |nodes| - 1
  }

  /** The ids of `ids` that resolve to an edge, in order. */
  function Resolved(edges: seq<Edge>, ids: seq<string>): (r: seq<string>)
    decreases |ids|
  {
    if ids == [] then []
    else if Find(edges, ids[0]).Some? then [ids[0]] + Resolved(edges, ids[1..])
    else Resolved(edges, ids[1..])
  }

  /** The id resolves to an edge that still satisfies the relaxation guard. */
  predicate IsWitness(t: Tables, edges: seq<Edge>, id: string) {
    Find(edges, id).Some? && CanRelax(t.dist, Find(edges, id).value)
  }

  /** The edge the verification scan stops at: the first id of `ids` that is a
      witness, or `None` when no id is. */
  function FirstWitness(t: Tables, edges: seq<Edge>, ids: seq<string>): (r: Option<Edge>)
    ensures r.None? <==> forall i :: 0 <= i < |ids| ==> !IsWitness(t, edges, ids[i])
    ensures r.Some? ==> exists i :: 0 <= i < |ids| && IsWitness(t, edges, ids[i])
                                    && Find(edges, ids[i]) == r
                                    && forall j :: 0 <= j < i ==> !IsWitness(t, edges, ids[j])
    decreases |ids|
  {
    if ids == [] then None
    else if IsWitness(t, edges, ids[0]) then Find(edges, ids[0])
    else
      var r := FirstWitness(t, edges, ids[1..]);
      assert forall i :: 1 <= i < |ids| ==> ids[i] == ids[1..][i - 1];
      assert r.Some? ==> exists i :: 0 <= i < |ids| && IsWitness(t, edges, ids[i])
                                     && Find(edges, ids[i]) == r
                                     && forall j :: 0 <= j < i ==> !IsWitness(t, edges, ids[j]) by {
        if r.Some? {
          var i :| 0 <= i < |ids[1..]| && IsWitness(t, edges, ids[1..][i])
                   && Find(edges, ids[1..][i]) == r
                   && forall j :: 0 <= j < i ==> !IsWitness(t, edges, ids[1..][j]);
          assert forall j :: 0 <= j < i + 1 ==> !IsWitness(t, edges, ids[j]) by {
            forall j | 0 <= j < i + 1 ensures !IsWitness(t, edges, ids[j]) {
              if j > 0 { assert ids[j] == ids[1..][j - 1]; }
            }
          }
          assert ids[i + 1] == ids[1..][i];
        }
      }
      r
  }

  /** The verification scan (`for` over the order with `break` at the first
      edge that would still relax). It reads the tables and changes nothing. */
  method ScanForNegativeCycle(t: Tables, edges: seq<Edge>, order: seq<string>)
    returns (found: Option<Edge>)
    ensures found == FirstWitness(t, edges, order)
    ensures found.Some? <==> exists i :: 0 <= i < |order| && IsWitness(t, edges, order[i])
  {
    found := None;
    var i := 0;
    while i < |order|
      invariant 0 <= i <= |order|
      invariant found == None
      invariant FirstWitness(t, edges, order[i..]) == FirstWitness(t, edges, order)
    {
      var edge := Find(edges, order[i]);
      if edge.Some? && CanRelax(t.dist, edge.value) {
        found := edge;
        break;
      }
      assert order[i..][1..] == order[i + 1..];
      i := i + 1;
    }
  }

  /** A pass never raises a distance. */
  lemma {:induction false} PassNoIncrease(t: Tables, edges: seq<Edge>, ids: seq<string>)
    ensures NoIncrease(t, PassOf(t, edges, ids))
    decreases |ids|
  {
    if ids != [] {
      var t1 := Examine(t, edges, ids[0]);
      match Find(edges, ids[0]) {
        case None =>
        case Some(e) => RelaxEffect(t, e, "");
      }
      PassNoIncrease(t1, edges, ids[1..]);
      NoIncreaseTrans(t, t1, PassOf(t1, edges, ids[1..]));
    }
  }

  /** A pass keeps the table invariant. */
  lemma {:induction false} PassConsistent(t: Tables, edges: seq<Edge>, ids: seq<string>, source: string)
    requires Consistent(t, source)
    ensures Consistent(PassOf(t, edges, ids), source)
    decreases |ids|
  {
    if ids != [] {
      match Find(edges, ids[0]) {
        case None =>
        case Some(e) => RelaxEffect(t, e, source);
      }
      PassConsistent(Examine(t, edges, ids[0]), edges, ids[1..], source);
    }
  }

  /** Every table reached after any number of passes from the initial tables
      satisfies the invariant. */
  lemma {:induction false} AfterConsistent(nodes: seq<string>, source: string, edges: seq<Edge>,
                                           order: seq<string>, k: nat)
    ensures Consistent(After(Initial(nodes, source), edges, order, k), source)
  {
    if k == 0 {
      InitialConsistent(nodes, source);
    } else {
      AfterConsistent(nodes, source, edges, order, k - 1);
      PassConsistent(After(Initial(nodes, source), edges, order, k - 1), edges, order, source);
    }
  }

  /** Once a pass changes nothing, no later pass does: the tables after any
      larger number of passes are the same. */
  lemma {:induction false} StableFrom(t0: Tables, edges: seq<Edge>, order: seq<string>, k: nat, m: nat)
    requires PassOf(After(t0, edges, order, k), edges, order) == After(t0, edges, order, k)
    requires k <= m
    ensures After(t0, edges, order, m) == After(t0, edges, order, k)
    decreases m - k
  {
    if m > k {
      StableFrom(t0, edges, order, k, m - 1);
    }
  }

  /** A pass changes the tables exactly when some id of the order is a witness
      on the tables the pass starts from; so the verification scan finds
      nothing exactly when one more pass would change nothing. */
  lemma {:induction false} NoWitnessIffStable(t: Tables, edges: seq<Edge>, ids: seq<string>)
    ensures FirstWitness(t, edges, ids).None? <==> PassOf(t, edges, ids) == t
    ensures FirstWitness(t, edges, ids).Some? ==> LowerSomewhere(t, PassOf(t, edges, ids))
    decreases |ids|
  {
    if ids != [] {
      var t1 := Examine(t, edges, ids[0]);
      PassNoIncrease(t1, edges, ids[1..]);
      match Find(edges, ids[0]) {
        case None =>
          NoWitnessIffStable(t, edges, ids[1..]);
        case Some(e) =>
          RelaxEffect(t, e, "");
          if CanRelax(t.dist, e) {
            assert IsWitness(t, edges, ids[0]);
            LowerThenNoIncrease(t, t1, PassOf(t1, edges, ids[1..]));
          } else {
            assert t1 == t;
            NoWitnessIffStable(t, edges, ids[1..]);
          }
      }
    }
  }
}
