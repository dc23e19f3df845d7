# Bellman-Ford engine of the visualiser, in Dafny

`bellman-ford.js` drives an interactive Bellman-Ford visualiser. Its engine has
two flows over the same relaxation rule:

- the **trace flow** (`initializeDefaultSteps`). For a graph of `n` nodes it runs `n - 1` passes over
  an explicit edge order. For every examined edge it records one step with a
  copy of the distance table and the predecessor table. A final step reports
  the verification scan: the first edge of the order that would still relax.
- the **run flow** (`runBellmanFordAlgorithm`). It performs the same passes for
  a caller-given source, node list, edge list and order. It stops early after
  a pass that relaxes nothing. It then runs the verification scan. When the
  scan finds an edge, it walks back through the predecessor table from that
  edge's target to extract a negative cycle.

Both result views show a path column. Each one walks backward through the
predecessor table from a node under a safety counter.

The model has seven modules:

- `Graph` (graph.dfy): distances (`Inf | Fin(n)`), edges, the two tables, the
  `find` lookup, the relaxation guard and its effect, the initial tables, and
  the table invariant `Consistent`.
- `Relaxation` (relaxation.dfy): a pass as a function of the tables (`PassOf`),
  `k` passes (`After`), the verification scan (`FirstWitness`), and the facts
  about a pass: no distance rises, the invariant is kept, and a pass changes
  the tables exactly when the scan finds a witness.
- `Detection` (detection.dfy): what the scan detects: a negative cycle
  reachable from the source always leaves an edge that still relaxes.
- `Replay` (replay.dfy): the trace flow as a method that builds the step list,
  proved equal to the function `Trace`, and the properties of that list.
- `Run` (run.dfy): the run flow, its early exit, and the cycle extraction, both
  as written and corrected (see Findings).
- `Paths` (paths.dfy): the two path walks.
- `Demo` (demo.dfy): the hard-coded demonstration graph, and a three-node
  graph with the negative cycle y → z → y, run through the model.

The tables are local maps that the source updates in place. The methods keep
them as `map`-valued local variables and reassign them. Each loop is proved
against the specification function it computes.

## Model

| member | source | states |
|---|---|---|
| Graph.Find | bellman-ford.js:70 | `edges.find` by id: `None` exactly when no edge has the id; otherwise the edge it returns has the id and no earlier edge does |
| Graph.InitTables | bellman-ford.js:419-422 | the initialisation loop gives every node a key in both tables: the source 0, every other node infinity, every predecessor null |
| Graph.RelaxEffect | bellman-ford.js:449-455 | one relaxation changes only `d[v]` and `pred[v]`. It sets them to `d[u] + w` and `u` exactly when the guard holds, and the tables change exactly then. No distance rises, some distance falls exactly when the guard holds, and the table invariant is kept |
| Relaxation.FirstWitness | bellman-ford.js:119-137 | the scan result is `None` exactly when no id of the order resolves to an edge that still relaxes; otherwise it is the edge of the first such id |
| Relaxation.ScanForNegativeCycle | bellman-ford.js:469-484 | the scanning loop with its `break` returns the first witness, and finds one exactly when some id of the order is a witness |
| Relaxation.PassNoIncrease | bellman-ford.js:435-456 | a pass keeps the key set and never raises a distance |
| Relaxation.PassConsistent | bellman-ford.js:435-456 | a pass keeps the table invariant: a node with a predecessor is finite and so is its predecessor; a finite node is the source or has a predecessor |
| Relaxation.AfterConsistent | bellman-ford.js:419-465 | the tables after any number of passes from the initial tables satisfy the invariant |
| Relaxation.StableFrom | bellman-ford.js:460-464 | once a pass leaves the tables unchanged, every later pass does too, so stopping early yields the tables of all passes |
| Relaxation.NoWitnessIffStable | bellman-ford.js:469-484 | the scan finds nothing exactly when one more pass would leave the tables unchanged; when it finds an edge, that pass lowers some distance |
| Detection.AfterNoIncrease | bellman-ford.js:428-465 | any number of passes keeps the key set and raises no distance |
| Detection.NoWitnessWalkBound | bellman-ford.js:469-484 | on tables where the scan finds nothing, a walk of examined edges from a finite node ends at a finite node whose distance exceeds the start's by at most the walk's weight |
| Detection.NoWitnessNoNegativeCycle | bellman-ford.js:469-484 | on tables where the scan finds nothing, every closed walk of examined edges through a finite node has non-negative weight |
| Detection.NegativeCycleDetected | bellman-ford.js:469-484 | the scan misses no negative cycle reachable from the source: if a walk of examined edges leads from the source to a closed walk of examined edges with negative weight, the scan on the final tables finds a witness, so the flag is set |
| Replay.RunTraced | bellman-ford.js:25-161 | the trace flow builds exactly `Trace`: the initial step, one step per resolved id per pass, and the check step on the final tables |
| Replay.TracedPass | bellman-ford.js:68-115 | one pass of the trace flow leaves the tables of `PassOf` and pushes exactly that pass's steps |
| Replay.PassStepsShape | bellman-ford.js:68-115 | a pass pushes one step per resolved id, in order, each tagged with the pass number and the id; unknown ids push nothing |
| Replay.PassesStepsShape | bellman-ford.js:66-116 | `m` passes push `m * k` steps for `k` resolved ids; step `i` belongs to pass `i / k + 1` and examines resolved id `i % k` |
| Replay.TraceShape | bellman-ford.js:30-160 | the trace has `1 + (n - 1) * k + 1` steps. Step 0 holds the initial tables, with no edge. Each middle step carries its pass and edge id. The last step is the check of pass `n` |
| Replay.TraceLinked | bellman-ford.js:86-115 | each step's snapshot is the previous snapshot relaxed along the examined edge. No distance rises between steps. `relaxedEdge` is set exactly when the tables changed, and then names the examined edge |
| Replay.TraceMonotone | bellman-ford.js:86-89 | for steps `i <= j`, no distance in step `j` exceeds its value in step `i` |
| Replay.TraceConsistent | bellman-ford.js:86-89 | every snapshot of the trace satisfies the table invariant |
| Replay.TraceVerdict | bellman-ford.js:119-160 | the last step holds the tables after all passes. It reports a negative cycle exactly when some id still relaxes, and it names the first such id; otherwise the reported edge is null |
| Run.IndexOf | bellman-ford.js:510 | `indexOf` returns the first position holding the element |
| Run.WalkKeeps | bellman-ford.js:487-505 | the extraction walk keeps its invariant. The trail ends at the witness target, has no repeat or empty id, and gives each element the element before it as predecessor. It grows to at most `2n + 1` entries |
| Run.WalkBack | bellman-ford.js:487-506 | the `while` loop with its `visited` set and both `break`s computes the walk `Walk` |
| Run.ExtractCycle | bellman-ford.js:486-512 | the extraction as written. For a non-empty target id the list is non-empty and ends with the target. It has no repeated node, each element's predecessor is the element before it, and it has at most `2n + 1` nodes |
| Run.CycleAsWrittenShape | bellman-ford.js:486-512 | the same facts about the function `CycleAsWritten` |
| Run.CycleAsWrittenClosesOnlyOnSelfLoop | bellman-ford.js:507-511 | the as-written list closes up into a cycle of the predecessor table only when it is the one-node list `[v]` and `v` is its own predecessor |
| Run.ExtractCycleClosed | bellman-ford.js:507-511 | the corrected extraction has no repeated node and each element's predecessor is the element before it. When the walk stopped on a recorded node, the first element's predecessor is the last, so the list is a cycle of the predecessor table |
| Run.CycleClosedShape | bellman-ford.js:507-511 | the same facts about the function `CycleClosed` |
| Run.RelaxPass | bellman-ford.js:432-456 | one pass of the run flow leaves the tables of `PassOf`, and `relaxed` is true exactly when the pass changed the tables |
| Run.RunPasses | bellman-ford.js:415-465 | the initialisation and the passes. The result is the tables after all `n - 1` passes, even when the loop leaves early. At most `n - 1` passes run, and each pass before the last changed the tables. A run that stopped early stopped after a pass that changed nothing, on tables with no witness |
| Run.RunBellmanFord | bellman-ford.js:411-528 | the returned tables are those after all passes. `hasNegativeCycle` is true exactly when the scan finds a witness; then the cycle is the as-written extraction from its target, otherwise empty. The cycle ends with the target, has no repeat, follows the predecessor table and has at most `2n + 1` nodes |
| Run.RunBellmanFordClosed | bellman-ford.js:486-512 | the run flow with the corrected extraction: the same tables and flag, and the reported list has no repeated node, each node's predecessor is the node before it, and it is a cycle of the predecessor table whenever the walk stopped on a recorded node |
| Paths.AncestorsShape | bellman-ford.js:302-312 | the backward walk ends at the node. Each element is the predecessor of the next one. It makes at most `cap` steps, and a walk that stopped sooner starts at a node with a null predecessor |
| Paths.AncestorsRooted | bellman-ford.js:302-312 | on consistent tables, every node on the walk from a finite node is finite, and a walk that stopped before its cap starts at the source |
| Paths.FollowPredecessors | bellman-ford.js:300-312 | the step view's loop, bounded by `safetyCounter < 100` with the `>= 99` check only logging, makes at most `cap` steps and yields `Ancestors(cap)` |
| Paths.FollowPredecessorsUntil | bellman-ford.js:607-620 | the result view's loop, whose `break` fires once the counter reaches `limit - 1`, yields `Ancestors(limit - 1)` |
| Paths.ReplayPath | bellman-ford.js:292-315 | the source shows itself, an infinite node shows "No path", and any other node shows the walk of at most 100 steps |
| Paths.ResultPath | bellman-ford.js:598-623 | the source shows itself and an infinite node "No path". A node of the reported cycle shows "In negative cycle" when the flag is set. Any other node shows the walk of at most 99 steps |
| Demo.DefaultInitial | bellman-ford.js:30-60 | the general initialisation for source "a" gives the hand-written tables of step 0 |
| Demo.DefaultRun | bellman-ford.js:2-19 | on the demonstration graph, all 4 passes change the tables (so the run flow never stops early) and end at a 0, b 0, c −3, d −3, e −4 |
| Demo.DefaultWitness | bellman-ford.js:119-137 | on the final tables the scan stops at `d-b` |
| Demo.DefaultCycleDetected | bellman-ford.js:2-19 | the cycle d → b → e → d (weight −1) is reached from a by a → c → d, so the scan on the final tables finds a witness without computing the passes |
| Demo.DefaultTrace | bellman-ford.js:140-160 | the demonstration trace has 26 steps, and the last reports a negative cycle found at `d-b` on the final tables |
| Demo.DefaultCycle | bellman-ford.js:486-512 | the run flow's extraction from b, as written, is ["b"], which is not a cycle; the corrected extraction is ["e", "d", "b"], which is one |
| Demo.SmallPasses | bellman-ford.js:429-465 | on x → y (1), y → z (−3), z → y (1) from x, the two passes end at x 0, y −3, z −4 |
| Demo.SmallWitness | bellman-ford.js:469-484 | on those tables the scan stops at `y-z` |
| Demo.SelfLoopCycle | bellman-ford.js:491-511 | on s → v (1), v → v (−1) from s, where `v` is its own predecessor, the as-written extraction from v is ["v"], and it closes up: the self-loop |
| Demo.SmallCycle | bellman-ford.js:507-511 | the extraction from z as written is ["z"], not a cycle; the corrected extraction is ["y", "z"], the cycle y → z → y |

## Left out

- Rendering, DOM handling, the vis network, console logging and timers are not modelled.
- The edge-order editing handlers and step navigation are not modelled. They only choose inputs and select a step to show.
- The narrative text of a step (`description`, `relaxationDetails`, `tableEntry`) and `formatDistances` are not modelled. A step records which narrative applies as an `Action` value. `Initialize` and `CycleCheck` mark the two boundary steps. An edge step is `Relaxed`, `FromInfinity` or `NotShorter`.
- `parseInt(edge.label)` is not modelled: edge weights are integers given as input. A label that parses to `NaN` has no counterpart.
- An endpoint missing from the distance table reads as `undefined` in JavaScript, so the guard's sum or its comparison involves `NaN` and the guard is false. The model gives the same result: such an edge never relaxes.
- Distances and weights are exact integers in the model. JavaScript numbers are doubles, so the sum `distances[u] + weight` (lines 86, 449, 482) is exact only up to `Number.MAX_SAFE_INTEGER` (2^53 − 1). Beyond that, rounding can make the code skip a relaxation that the model performs.
- The trace flow's five hard-coded nodes, hard-coded source "a" and hand-written tables are generalised to a node list and a source. `Demo.DefaultInitial` shows that the general initialisation gives the hand-written tables.
- JavaScript object key order is not modelled. Tables are maps, and the initialisation loop visits the node list in order.
- Paths.ReplayPath: requires the tables to keep the relaxation invariant. On other tables `stepData.predecessor[current]` could be `undefined`, which the loop would prepend; the model does not cover that.
- Paths.ResultPath: requires the same invariant, for the same reason.
- Run.RunBellmanFord: proves that the reported list follows the predecessor table, but not that it is a negative cycle. As written it is a cycle only when the witness target is its own predecessor (see Findings).
- Run.RunBellmanFordClosed: proves that the list is a cycle of the predecessor table, but not that its weight is negative.
- The engine has no error for an unknown source or an empty node list. An unknown source leaves every distance infinite, and an empty node list runs no pass. The model keeps this behaviour.
- Shortest-path correctness is not proved, and neither is independence from the edge order on graphs without a negative cycle. The model proves the invariants and the early-exit and stability facts instead.
- The flag is proved equal to "some edge of the order still relaxes on the final tables", and `Detection.NegativeCycleDetected` proves one direction of cycle detection: a negative cycle reachable from the source always sets the flag. The converse is not proved: that a set flag implies a reachable negative cycle. For the same reason, the model does not prove that `n - 1` passes converge on a graph without such a cycle. Both need the classical argument that a shortest path has at most `n - 1` edges. So the narrative texts of lines 143-145 and 149-151 ("contains a negative weight cycle", "has found all shortest paths") are justified only in the direction proved.
- The demonstration graph has the negative cycle d → b → e → d, of weight −1. Both flows therefore report a negative cycle on it, as `Demo.DefaultTrace` and `Demo.DefaultWitness` state. The final tables the code produces are a 0, b 0, c −3, d −3, e −4. The values a 0, b 2, c −3, d 0, e −2 are the lengths of the shortest simple paths from a; the code never reaches them as its final tables.

## Findings

| source | as written | input that shows it | evidently intended | confidence | as-written member | corrected member |
|---|---|---|---|---|---|---|
| bellman-ford.js:507-511 | `negativeCycle.slice(negativeCycle.indexOf(current))` keeps the part of the list from the repeated node to the end. Because the list is built by `unshift`, that part runs from the repeated node to the walk's starting node. It is not a cycle, unless the witness target is its own predecessor; then the one-node list is the self-loop | the demonstration graph (witness `d-b`) gives ["b"], not e, d, b; x → y (1), y → z (−3), z → y (1) from x gives ["z"], not y, z | keep the list from its front up to and including the repeated node, `slice(0, indexOf(current) + 1)`, which closes up into a cycle of the predecessor table | not executed | Run.ExtractCycle (counterexamples: Demo.DefaultCycle, Demo.SmallCycle; the only closing case: Run.CycleAsWrittenClosesOnlyOnSelfLoop, Demo.SelfLoopCycle) | Run.ExtractCycleClosed, Run.RunBellmanFordClosed |
