/** The values the Bellman-Ford engine of bellman-ford.js works on: distances
    with an infinity sentinel, directed weighted edges, the distance and
    predecessor tables, and the relaxation rule applied to one edge. */
module Graph {

  datatype Option<T> = None | Some(value: T)

  /** A tentative distance: a finite integer or the `Infinity` sentinel. */
  datatype Dist = Inf | Fin(n: int)

  /** `a <= b` on distances, with `Inf` above every finite value. */
  predicate DistLe(a: Dist, b: Dist) {
    match (a, b)
    case (_, Inf) => true
    case (Inf, Fin(_)) => false
    case (Fin(x), Fin(y)) => x <= y
  }

  predicate DistLt(a: Dist, b: Dist) {
    DistLe(a, b) && a != b
  }

  /** A directed edge `from -> to`; `weight` is the integer its label parses to. */
  datatype Edge = Edge(id: string, from: string, to: string, weight: int)

  /** The distance table and the predecessor table (`None` is JavaScript's `null`). */
  datatype Tables = Tables(dist: map<string, Dist>, pred: map<string, Option<string>>)

  /** `edges.find(e => e.id === id)`: the first edge carrying that id. */
  function Find(edges: seq<Edge>, id: string): (r: Option<Edge>)
    ensures r.None? <==> forall i :: 0 <= i < |edges| ==> edges[i].id != id
    ensures r.Some? ==> exists i :: 0 <= i < |edges| && edges[i] == r.value && r.value.id == id
                                    && forall j :: 0 <= j < i ==> edges[j].id != id
  {
    if edges == [] then None
    else if edges[0].id == id then Some(edges[0])
    else
      var r := Find(edges[1..], id);
      assert r.Some? ==> exists i :: 0 <= i < |edges| && edges[i] == r.value && r.value.id == id
                                     && forall j :: 0 <= j < i ==> edges[j].id != id by {
        if r.Some? {
          var i :| 0 <= i < |edges[1..]| && edges[1..][i] == r.value && r.value.id == id
                   && forall j :: 0 <= j < i ==> edges[1..][j].id != id;
          assert forall j :: 0 <= j < i + 1 ==> edges[j].id != id by {
            forall j | 0 <= j < i + 1 ensures edges[j].id != id {
              if j > 0 { assert edges[j] == edges[1..][j - 1]; }
            }
          }
        }
      }
      assert r.None? ==> forall i :: 0 <= i < |edges| ==> edges[i].id != id by {
        if r.None? {
          forall i | 0 <= i < |edges| ensures edges[i].id != id {
            if i > 0 { assert edges[i] == edges[1..][i - 1]; }
          }
        }
      }
      r
  }

  /** When no other edge carries the id of `edges[i]`, the lookup finds it. */
  lemma FindUnique(edges: seq<Edge>, i: nat)
    requires i < |edges| && forall j :: 0 <= j < |edges| && j != i ==> edges[j].id != edges[i].id
    ensures Find(edges, edges[i].id) == Some(edges[i])
  {
  }

  /** The guard `distances[u] !== Infinity && distances[u] + weight < distances[v]`.
      A node missing from the table reads as `undefined`, so the sum or the
      comparison involves `NaN` and the guard is false: such an edge never
      relaxes. */
  predicate CanRelax(dist: map<string, Dist>, e: Edge) {
    && e.from in dist && e.to in dist
    && dist[e.from].Fin?
    && DistLt(Fin(dist[e.from].n + e.weight), dist[e.to])
  }

  /** One relaxation: `distances[v] = distances[u] + weight; predecessor[v] = u`
      when the guard holds, no change otherwise. */
  function Relax(t: Tables, e: Edge): Tables {
    if CanRelax(t.dist, e) then
      Tables(t.dist[e.to := Fin(t.dist[e.from].n + e.weight)], t.pred[e.to := Some(e.from)])
    else t
  }

  /** The tables both flows start from: every node id is a key, the source has
      distance 0, every other node infinity, and no node has a predecessor. */
  function Initial(nodes: seq<string>, source: string): Tables {
    Tables(map x | x in nodes :: if x == source then Fin(0) else Inf,
           map x | x in nodes :: None)
  }

  /** The `nodes.forEach` loop that fills both tables. */
  method InitTables(nodes: seq<string>, source: string) returns (t: Tables)
    ensures t.dist.Keys == t.pred.Keys == set x | x in nodes
    ensures forall x :: x in t.dist ==> t.dist[x] == (if x == source then Fin(0) else Inf)
    ensures forall x :: x in t.pred ==> t.pred[x] == None
    ensures t == Initial(nodes, source)
  {
    var dist: map<string, Dist> := map[];
    var pred: map<string, Option<string>> := map[];
    for i := 0 to |nodes|
      invariant forall x :: x in dist <==> x in nodes[..i]
      invariant forall x :: x in pred <==> x in nodes[..i]
      invariant forall x :: x in dist ==> dist[x] == (if x == source then Fin(0) else Inf)
      invariant forall x :: x in pred ==> pred[x] == None
    {
      assert nodes[..i + 1] == nodes[..i] + [nodes[i]];
      dist := dist[nodes[i] := if nodes[i] == source then Fin(0) else Inf];
      pred := pred[nodes[i] := None];
    }
    assert nodes[..|nodes|] == nodes;
    t := Tables(dist, pred);
  }

  /** The invariant every relaxation keeps: both tables have the same keys, a
      node with a predecessor has a finite distance and so does its predecessor
      (which is itself a key), and a node with a finite distance is the source
      or has a predecessor. */
  predicate Consistent(t: Tables, source: string) {
    && t.dist.Keys == t.pred.Keys
    && (forall x :: x in t.pred && t.pred[x].Some? ==>
          t.dist[x].Fin? && t.pred[x].value in t.dist && t.dist[t.pred[x].value].Fin?)
    && (forall x :: x in t.dist && t.dist[x].Fin? ==> x == source || t.pred[x].Some?)
  }

  /** Every predecessor named in the table is itself a key of the table. */
  predicate PredClosed(pred: map<string, Option<string>>) {
    forall x :: x in pred && pred[x].Some? ==> pred[x].value in pred
  }

  /** No distance of `before` went up in `after`, and the keys are the same. */
  predicate NoIncrease(before: Tables, after: Tables) {
    && after.dist.Keys == before.dist.Keys
    && forall x :: x in before.dist ==> DistLe(after.dist[x], before.dist[x])
  }

  /** Some distance of `before` went strictly down in `after`. */
  predicate LowerSomewhere(before: Tables, after: Tables) {
    exists x :: x in before.dist && x in after.dist && DistLt(after.dist[x], before.dist[x])
  }

  lemma InitialConsistent(nodes: seq<string>, source: string)
    ensures Consistent(Initial(nodes, source), source)
  {
  }

  lemma ConsistentPredClosed(t: Tables, source: string)
    requires Consistent(t, source)
    ensures PredClosed(t.pred)
  {
  }

  /** What one relaxation does: it touches only `d[v]` and `pred[v]`, sets them
      to `d[u] + w` and `u` exactly when the guard holds, leaves both tables as
      they were otherwise, never raises a distance, and keeps the invariant. */
  lemma RelaxEffect(t: Tables, e: Edge, source: string)
    ensures var r := Relax(t, e);
      && r.dist.Keys == t.dist.Keys
      && (forall x :: x in t.dist && x != e.to ==> r.dist[x] == t.dist[x])
      && (forall x :: x in t.pred && x != e.to ==> x in r.pred && r.pred[x] == t.pred[x])
      && (CanRelax(t.dist, e) ==>
            r.dist[e.to] == Fin(t.dist[e.from].n + e.weight) && r.pred[e.to] == Some(e.from))
      && (!CanRelax(t.dist, e) ==> r == t)
      && NoIncrease(t, r)
      && (CanRelax(t.dist, e) <==> LowerSomewhere(t, r))
      && (r != t <==> CanRelax(t.dist, e))
      && (Consistent(t, source) ==> Consistent(r, source))
  {
    var r := Relax(t, e);
    if CanRelax(t.dist, e) {
      assert DistLt(r.dist[e.to], t.dist[e.to]);
      assert r.dist != t.dist;
    } else {
      assert !LowerSomewhere(t, r) by {
        forall x | x in t.dist && x in r.dist ensures !DistLt(r.dist[x], t.dist[x]) { }
      }
    }
  }

  lemma NoIncreaseTrans(a: Tables, b: Tables, c: Tables)
    requires NoIncrease(a, b) && NoIncrease(b, c)
    ensures NoIncrease(a, c)
  {
    forall x | x in a.dist ensures DistLe(c.dist[x], a.dist[x]) {
      assert DistLe(b.dist[x], a.dist[x]);
    }
  }

  lemma LowerThenNoIncrease(a: Tables, b: Tables, c: Tables)
    requires NoIncrease(a, b) && LowerSomewhere(a, b) && NoIncrease(b, c)
    ensures LowerSomewhere(a, c) && c != a
  {
    var x :| x in a.dist && x in b.dist && DistLt(b.dist[x], a.dist[x]);
    assert DistLe(c.dist[x], b.dist[x]);
    assert DistLt(c.dist[x], a.dist[x]);
  }
}
