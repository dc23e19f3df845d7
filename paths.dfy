/** The path column of both distance tables in bellman-ford.js: the walk
    backward through the predecessor table from a node, prepending each
    predecessor, until a null predecessor or a safety counter stops it. */
module Paths {
  import opened Graph
  import opened Run

  /** What the path column shows for one node. */
  datatype PathView = Path(nodes: seq<string>) | NoPath | InNegativeCycle

  /** The backward walk from `node` making at most `cap` predecessor steps,
      as the list the walk builds (oldest ancestor first, `node` last). */
  function Ancestors(pred: map<string, Option<string>>, node: string, cap: nat): seq<string>
    requires PredClosed(pred) && node in pred
    decreases cap
  {
    if cap == 0 || pred[node].None? then [node]
    else Ancestors(pred, pred[node].value, cap - 1) + [node]
  }

  /** The walk ends at the node; each element is the predecessor of the one
      after it; it makes at most `cap` steps; and if it made fewer than `cap`
      steps, its first element has a null predecessor. */
  lemma {:induction false} AncestorsShape(pred: map<string, Option<string>>, node: string, cap: nat)
    requires PredClosed(pred) && node in pred
    ensures var p := Ancestors(pred, node, cap);
      && 1 <= |p| <= cap + 1 && p[|p| - 1] == node
      && (forall i :: 0 <= i < |p| ==> p[i] in pred)
      && (forall i :: 0 < i < |p| ==> pred[p[i]] == Some(p[i - 1]))
      && (|p| <= cap ==> pred[p[0]] == None)
    decreases cap
  {
    if cap != 0 && pred[node].Some? {
      var q := Ancestors(pred, pred[node].value, cap - 1);
      AncestorsShape(pred, pred[node].value, cap - 1);
      var p := q + [node];
      assert forall i :: 0 <= i < |q| ==> p[i] == q[i];
    }
  }

  /** On tables that keep the relaxation invariant, a walk from a node with a
      finite distance that stops before its cap begins at the source, and
      every node on it has a finite distance. */
  lemma AncestorsRooted(t: Tables, source: string, node: string, cap: nat)
    requires Consistent(t, source) && node in t.dist && t.dist[node].Fin?
    ensures var p := Ancestors(t.pred, node, cap);
      && (forall i :: 0 <= i < |p| ==> p[i] in t.dist && t.dist[p[i]].Fin?)
      && (|p| <= cap ==> p[0] == source)
  {
    ConsistentPredClosed(t, source);
    var p := Ancestors(t.pred, node, cap);
    AncestorsShape(t.pred, node, cap);
    forall i | 0 <= i < |p| ensures p[i] in t.dist && t.dist[p[i]].Fin? {
      if i < |p| - 1 {
        assert t.pred[p[i + 1]] == Some(p[i]);
      }
    }
  }

  /** The `while` loop of the step-by-step view: follow the predecessor table
      while the predecessor is not null, at most `cap` times. */
  method FollowPredecessors(pred: map<string, Option<string>>, node: string, cap: nat)
    returns (pathNodes: seq<string>)
    requires PredClosed(pred) && node in pred
    ensures pathNodes == Ancestors(pred, node, cap)
  {
    var current := node;
    pathNodes := [current];
    var safetyCounter := 0;
    while pred[current] != None && safetyCounter < cap
      invariant 0 <= safetyCounter <= cap && current in pred
      invariant pathNodes != [] && pathNodes[0] == current
      invariant Ancestors(pred, node, cap) == Ancestors(pred, current, cap - safetyCounter) + pathNodes[1..]
      decreases cap - safetyCounter
    {
      current := pred[current].value;
      pathNodes := [current] + pathNodes;
      safetyCounter := safetyCounter + 1;
    }
  }

  /** The `while` loop of the result view: the same walk under the bound
      `limit`, left by `break` as soon as the counter reaches `limit - 1`, so
      it makes at most `limit - 1` steps. */
  method FollowPredecessorsUntil(pred: map<string, Option<string>>, node: string, limit: nat)
    returns (pathNodes: seq<string>)
    requires PredClosed(pred) && node in pred && limit >= 2
    ensures pathNodes == Ancestors(pred, node, limit - 1)
  {
    var current := node;
    pathNodes := [current];
    var safetyCounter := 0;
    while pred[current] != None && safetyCounter < limit
      invariant 0 <= safetyCounter < limit - 1 && current in pred
      invariant pathNodes != [] && pathNodes[0] == current
      invariant Ancestors(pred, node, limit - 1)
                == Ancestors(pred, current, limit - 1 - safetyCounter) + pathNodes[1..]
      decreases limit - safetyCounter
    {
      ghost var previous := pathNodes;
      current := pred[current].value;
      pathNodes := [current] + pathNodes;
      safetyCounter := safetyCounter + 1;
      assert pathNodes[1..] == previous == [previous[0]] + previous[1..];
      assert Ancestors(pred, previous[0], limit - safetyCounter)
             == Ancestors(pred, current, limit - 1 - safetyCounter) + [previous[0]];
      assert Ancestors(pred, node, limit - 1)
             == Ancestors(pred, current, limit - 1 - safetyCounter) + pathNodes[1..];
      if safetyCounter >= limit - 1 {
        assert Ancestors(pred, current, 0) == [current];
        break;
      }
    }
  }

  /** The path column of the step-by-step view (lines 292-315): the source
      shows itself, an infinite node "No path", and any other node the walk of
      at most 100 steps. */
  method ReplayPath(t: Tables, source: string, node: string) returns (view: PathView)
    requires Consistent(t, source) && node in t.dist
    ensures node == source ==> view == Path([source])
    ensures node != source && t.dist[node] == Inf ==> view == NoPath
    ensures node != source && t.dist[node].Fin? ==> view == Path(Ancestors(t.pred, node, 100))
  {
    ConsistentPredClosed(t, source);
    if node == source {
      view := Path([source]);
    } else if t.dist[node] == Inf {
      view := NoPath;
    } else {
      var pathNodes := FollowPredecessors(t.pred, node, 100);
      view := Path(pathNodes);
    }
  }

  /** The path column of the result view (lines 598-623): as above, except
      that a node of the reported cycle shows "In negative cycle" and the walk
      stops after 99 steps (the `break` once the counter reaches 99). */
  method ResultPath(r: RunResult, source: string, node: string) returns (view: PathView)
    requires Consistent(Tables(r.dist, r.pred), source) && node in r.dist
    ensures node == source ==> view == Path([source])
    ensures node != source && r.dist[node] == Inf ==> view == NoPath
    ensures node != source && r.dist[node].Fin? && r.hasNegativeCycle && node in r.negativeCycle ==>
              view == InNegativeCycle
    ensures node != source && r.dist[node].Fin? && !(r.hasNegativeCycle && node in r.negativeCycle) ==>
              view == Path(Ancestors(r.pred, node, 99))
  {
    ConsistentPredClosed(Tables(r.dist, r.pred), source);
    if node == source {
      view := Path([source]);
    } else if r.dist[node] == Inf {
      view := NoPath;
    } else if r.hasNegativeCycle && node in r.negativeCycle {
      view := InNegativeCycle;
    } else {
      var pathNodes := FollowPredecessorsUntil(r.pred, node, 100);
      view := Path(pathNodes);
    }
  }
}
