/** The demonstration graph of bellman-ford.js (lines 2-19) and a three-node
    graph, run through the model. The demonstration graph has the negative
    cycle d -> b -> e -> d of weight 2 - 4 + 1 = -1, so both flows report a
    negative cycle on it. */
module Demo {
  import opened Graph
  import opened Relaxation
  import opened Replay
  import opened Run
  import opened Detection

  const Nodes: seq<string> := ["a", "b", "c", "d", "e"]

  const Edges: seq<Edge> := [
    Edge("a-b", "a", "b", 5),
    Edge("a-c", "a", "c", -3),
    Edge("d-b", "d", "b", 2),
    Edge("c-d", "c", "d", 3),
    Edge("b-e", "b", "e", -4),
    Edge("e-d", "e", "d", 1)
  ]

  const Order: seq<string> := ["a-b", "a-c", "d-b", "c-d", "b-e", "e-d"]

  /** The tables the trace flow writes out by hand for step 0 and as its
      working copies (lines 30-60). */
  const Start: Tables := Tables(
    map["a" := Fin(0), "b" := Inf, "c" := Inf, "d" := Inf, "e" := Inf],
    map["a" := None, "b" := None, "c" := None, "d" := None, "e" := None])

  /** The tables after each of the four passes, written as the updates each
      pass makes, in the order it makes them. */
  const Pass1: Tables := Tables(
    Start.dist["b" := Fin(5)]["c" := Fin(-3)]["d" := Fin(0)]["e" := Fin(1)],
    Start.pred["b" := Some("a")]["c" := Some("a")]["d" := Some("c")]["e" := Some("b")])

  const Pass2: Tables := Tables(
    Pass1.dist["b" := Fin(2)]["e" := Fin(-2)]["d" := Fin(-1)],
    Pass1.pred["b" := Some("d")]["e" := Some("b")]["d" := Some("e")])

  const Pass3: Tables := Tables(
    Pass2.dist["b" := Fin(1)]["e" := Fin(-3)]["d" := Fin(-2)],
    Pass2.pred["b" := Some("d")]["e" := Some("b")]["d" := Some("e")])

  const Pass4: Tables := Tables(
    Pass3.dist["b" := Fin(0)]["e" := Fin(-4)]["d" := Fin(-3)],
    Pass3.pred["b" := Some("d")]["e" := Some("b")]["d" := Some("e")])

  /** The final tables: a 0, b 0, c -3, d -3, e -4, with predecessors
      b <- d, c <- a, d <- e, e <- b. */
  lemma DefaultFinal()
    ensures Pass4.dist.Keys == Pass4.pred.Keys == {"a", "b", "c", "d", "e"}
    ensures Pass4.dist["a"] == Fin(0) && Pass4.dist["b"] == Fin(0) && Pass4.dist["c"] == Fin(-3)
            && Pass4.dist["d"] == Fin(-3) && Pass4.dist["e"] == Fin(-4)
    ensures Pass4.pred["a"] == None && Pass4.pred["b"] == Some("d") && Pass4.pred["c"] == Some("a")
            && Pass4.pred["d"] == Some("e") && Pass4.pred["e"] == Some("b")
  {
    DefaultFinalDist();
    DefaultFinalPred();
  }

  lemma DefaultFinalDist()
    ensures Pass4.dist.Keys == {"a", "b", "c", "d", "e"}
    ensures Pass4.dist["a"] == Fin(0) && Pass4.dist["b"] == Fin(0) && Pass4.dist["c"] == Fin(-3)
            && Pass4.dist["d"] == Fin(-3) && Pass4.dist["e"] == Fin(-4)
  {
  }

  lemma DefaultFinalPred()
    ensures Pass4.pred.Keys == {"a", "b", "c", "d", "e"}
    ensures Pass4.pred["a"] == None && Pass4.pred["b"] == Some("d") && Pass4.pred["c"] == Some("a")
            && Pass4.pred["d"] == Some("e") && Pass4.pred["e"] == Some("b")
  {
  }

  /** The general initialisation yields the hand-written tables of the
      demonstration. */
  lemma DefaultInitial()
    ensures Initial(Nodes, "a") == Start
  {
    DefaultInitialDist();
    DefaultInitialPred();
  }

  lemma DefaultInitialDist()
    ensures Initial(Nodes, "a").dist == Start.dist
  {
    var d := Initial(Nodes, "a").dist;
    assert forall x :: x in Nodes <==> x in Start.dist;
    assert d.Keys == Start.dist.Keys;
    forall x | x in d ensures d[x] == Start.dist[x] {
      if x == "a" {
      } else {
        assert x in ["b", "c", "d", "e"];
      }
    }
  }

  lemma DefaultInitialPred()
    ensures Initial(Nodes, "a").pred == Start.pred
  {
    var p := Initial(Nodes, "a").pred;
    assert forall x :: x in Nodes <==> x in Start.pred;
    assert p.Keys == Start.pred.Keys;
    assert forall x :: x in p ==> p[x] == Start.pred[x];
  }

  /** The ids of the demonstration are distinct, so each id of the order
      resolves to the edge at the same position. */
  lemma DefaultFind(i: nat)
    requires i < 6
    ensures Find(Edges, Order[i]) == Some(Edges[i])
  {
    assert forall j, k :: 0 <= j < k < |Edges| ==> Edges[j].id != Edges[k].id;
    assert Order[i] == Edges[i].id;
    FindUnique(Edges, i);
  }

  /** One pass over the demonstration order relaxes the six edges in turn. */
  function RelaxInOrder(t: Tables): Tables {
    Relax(Relax(Relax(Relax(Relax(Relax(t, Edges[0]), Edges[1]), Edges[2]), Edges[3]), Edges[4]), Edges[5])
  }

  lemma DefaultPass(t: Tables)
    ensures PassOf(t, Edges, Order) == RelaxInOrder(t)
  {
    DefaultFind(0); DefaultFind(1); DefaultFind(2); DefaultFind(3); DefaultFind(4); DefaultFind(5);
    var t1 := Relax(t, Edges[0]);
    var t2 := Relax(t1, Edges[1]);
    var t3 := Relax(t2, Edges[2]);
    var t4 := Relax(t3, Edges[3]);
    var t5 := Relax(t4, Edges[4]);
    var t6 := Relax(t5, Edges[5]);
    assert PassOf(t6, Edges, Order[6..]) == t6;
    assert PassOf(t5, Edges, Order[5..]) == t6;
    assert PassOf(t4, Edges, Order[4..]) == t6;
    assert PassOf(t3, Edges, Order[3..]) == t6;
    assert PassOf(t2, Edges, Order[2..]) == t6;
    assert PassOf(t1, Edges, Order[1..]) == t6;
  }

  /** Pass 1: a-b sets b to 5, a-c sets c to -3, d-b is skipped (d is
      infinite), c-d sets d to 0, b-e sets e to 1, e-d does not improve d. */
  lemma DefaultPass1()
    ensures RelaxInOrder(Start) == Pass1
  {
    DefaultPass1Head();
    DefaultPass1Tail();
  }

  /** The tables halfway through pass 1. */
  const Pass1Half: Tables := Tables(
    Start.dist["b" := Fin(5)]["c" := Fin(-3)],
    Start.pred["b" := Some("a")]["c" := Some("a")])

  lemma DefaultPass1Head()
    ensures Relax(Relax(Relax(Start, Edges[0]), Edges[1]), Edges[2]) == Pass1Half
  {
    var t1 := Relax(Start, Edges[0]);
    assert t1 == Tables(Start.dist["b" := Fin(5)], Start.pred["b" := Some("a")]);
    var t2 := Relax(t1, Edges[1]);
    assert t2 == Tables(t1.dist["c" := Fin(-3)], t1.pred["c" := Some("a")]);
    assert Relax(t2, Edges[2]) == t2;
  }

  lemma DefaultPass1Tail()
    ensures Relax(Relax(Relax(Pass1Half, Edges[3]), Edges[4]), Edges[5]) == Pass1
  {
    var t3 := Pass1Half;
    var t4 := Relax(t3, Edges[3]);
    assert t4 == Tables(t3.dist["d" := Fin(0)], t3.pred["d" := Some("c")]);
    var t5 := Relax(t4, Edges[4]);
    assert t5 == Tables(t4.dist["e" := Fin(1)], t4.pred["e" := Some("b")]);
    assert Relax(t5, Edges[5]) == t5;
  }

  /** Passes 2 to 4 each go once round the cycle d -> b -> e -> d: d-b
      lowers b, b-e lowers e, e-d lowers d, and the other edges change
      nothing. From pass 3 on each round lowers all three by one. */
  lemma DefaultPass2()
    ensures RelaxInOrder(Pass1) == Pass2
  {
    DefaultPass2Head();
    DefaultPass2Tail();
  }

  /** The tables after d-b in pass 2. */
  const Pass2Half: Tables := Tables(Pass1.dist["b" := Fin(2)], Pass1.pred["b" := Some("d")])

  lemma DefaultPass2Head()
    ensures Relax(Relax(Relax(Pass1, Edges[0]), Edges[1]), Edges[2]) == Pass2Half
  {
    var t := Pass1;
    assert Relax(t, Edges[0]) == t;
    assert Relax(t, Edges[1]) == t;
  }

  lemma DefaultPass2Tail()
    ensures Relax(Relax(Relax(Pass2Half, Edges[3]), Edges[4]), Edges[5]) == Pass2
  {
    var t3 := Pass2Half;
    assert Relax(t3, Edges[3]) == t3;
    var t5 := Relax(t3, Edges[4]);
    assert t5 == Tables(t3.dist["e" := Fin(-2)], t3.pred["e" := Some("b")]);
    var t6 := Relax(t5, Edges[5]);
    assert t6 == Tables(t5.dist["d" := Fin(-1)], t5.pred["d" := Some("e")]);
  }

  lemma DefaultPass3()
    ensures RelaxInOrder(Pass2) == Pass3
  {
    DefaultPass3Head();
    DefaultPass3Tail();
  }

  /** The tables after d-b in pass 3. */
  const Pass3Half: Tables := Tables(Pass2.dist["b" := Fin(1)], Pass2.pred["b" := Some("d")])

  lemma DefaultPass3Head()
    ensures Relax(Relax(Relax(Pass2, Edges[0]), Edges[1]), Edges[2]) == Pass3Half
  {
    var t := Pass2;
    assert Relax(t, Edges[0]) == t;
    assert Relax(t, Edges[1]) == t;
  }

  lemma DefaultPass3Tail()
    ensures Relax(Relax(Relax(Pass3Half, Edges[3]), Edges[4]), Edges[5]) == Pass3
  {
    var t3 := Pass3Half;
    assert Relax(t3, Edges[3]) == t3;
    var t5 := Relax(t3, Edges[4]);
    assert t5 == Tables(t3.dist["e" := Fin(-3)], t3.pred["e" := Some("b")]);
    var t6 := Relax(t5, Edges[5]);
    assert t6 == Tables(t5.dist["d" := Fin(-2)], t5.pred["d" := Some("e")]);
  }

  lemma DefaultPass4()
    ensures RelaxInOrder(Pass3) == Pass4
  {
    DefaultPass4Head();
    DefaultPass4Tail();
  }

  /** The tables after d-b in pass 4. */
  const Pass4Half: Tables := Tables(Pass3.dist["b" := Fin(0)], Pass3.pred["b" := Some("d")])

  lemma DefaultPass4Head()
    ensures Relax(Relax(Relax(Pass3, Edges[0]), Edges[1]), Edges[2]) == Pass4Half
  {
    var t := Pass3;
    assert Relax(t, Edges[0]) == t;
    assert Relax(t, Edges[1]) == t;
  }

  lemma DefaultPass4Tail()
    ensures Relax(Relax(Relax(Pass4Half, Edges[3]), Edges[4]), Edges[5]) == Pass4
  {
    var t3 := Pass4Half;
    assert Relax(t3, Edges[3]) == t3;
    var t5 := Relax(t3, Edges[4]);
    assert t5 == Tables(t3.dist["e" := Fin(-4)], t3.pred["e" := Some("b")]);
    var t6 := Relax(t5, Edges[5]);
    assert t6 == Tables(t5.dist["d" := Fin(-3)], t5.pred["d" := Some("e")]);
  }

  /** The tables after each number of passes from the demonstration start. */
  lemma DefaultAfter()
    ensures After(Start, Edges, Order, 0) == Start
    ensures After(Start, Edges, Order, 1) == Pass1
    ensures After(Start, Edges, Order, 2) == Pass2
    ensures After(Start, Edges, Order, 3) == Pass3
    ensures After(Start, Edges, Order, 4) == Pass4
  {
    DefaultPass(Start);
    DefaultPass1();
    assert After(Start, Edges, Order, 1) == Pass1;
    DefaultPass(Pass1);
    DefaultPass2();
    assert After(Start, Edges, Order, 2) == Pass2;
    DefaultPass(Pass2);
    DefaultPass3();
    assert After(Start, Edges, Order, 3) == Pass3;
    DefaultPass(Pass3);
    DefaultPass4();
  }

  /** Each pass lowers the distance of b. */
  lemma DefaultPassesChange()
    ensures Pass1 != Start && Pass2 != Pass1 && Pass3 != Pass2 && Pass4 != Pass3
  {
    assert Start.dist["b"] == Inf && Pass1.dist["b"] == Fin(5);
    assert Pass2.dist["b"] == Fin(2) && Pass3.dist["b"] == Fin(1) && Pass4.dist["b"] == Fin(0);
  }

  /** Both flows run all four passes on the demonstration (each pass changes
      the tables, so the run flow never stops early) and end at `Pass4`. */
  lemma DefaultRun()
    ensures Passes(Nodes) == 4
    ensures After(Initial(Nodes, "a"), Edges, Order, 4) == Pass4
    ensures forall q :: 0 <= q < 4 ==>
              After(Initial(Nodes, "a"), Edges, Order, q + 1) != After(Initial(Nodes, "a"), Edges, Order, q)
  {
    DefaultInitial();
    DefaultAfter();
    DefaultPassesChange();
    var t0 := Initial(Nodes, "a");
    forall q | 0 <= q < 4 ensures After(t0, Edges, Order, q + 1) != After(t0, Edges, Order, q) {
      // The empty branches are the case split the verifier needs: with `q` a
      // literal, `After` unfolds to the constants `DefaultAfter` and
      // `DefaultPassesChange` speak about.
      if q == 0 {
      } else if q == 1 {
      } else if q == 2 {
      } else {
        assert q == 3;
      }
    }
  }

  /** The guard on the final tables for the first three edges of the order:
      a -> b (0 + 5 against 0) and a -> c (0 - 3 against -3) fail, d -> b
      (-3 + 2 against 0) holds. */
  lemma DefaultFinalGuards()
    ensures !CanRelax(Pass4.dist, Edges[0]) && !CanRelax(Pass4.dist, Edges[1])
    ensures CanRelax(Pass4.dist, Edges[2])
  {
    DefaultFinal();
  }

  /** On the final tables the edge d -> b still relaxes (d[d] + 2 = -1 is
      below d[b] = 0), and it is the first such edge of the order. */
  lemma DefaultWitness()
    ensures FirstWitness(Pass4, Edges, Order) == Some(Edges[2])
  {
    DefaultFinalGuards();
    DefaultFind(0); DefaultFind(1); DefaultFind(2);
    assert !IsWitness(Pass4, Edges, Order[0]) && !IsWitness(Pass4, Edges, Order[1]);
    assert IsWitness(Pass4, Edges, Order[2]);
    assert FirstWitness(Pass4, Edges, Order[2..]) == Some(Edges[2]);
    assert FirstWitness(Pass4, Edges, Order[1..]) == Some(Edges[2]);
  }

  /** The trace of the demonstration has 1 + 4 * 6 + 1 = 26 steps, and its
      last step reports a negative cycle at edge "d-b". */
  lemma DefaultTrace()
    ensures var s := Trace(Nodes, Edges, Order, "a");
      && |s| == 26
      && s[25].action == CycleCheck && s[25].hasNegativeCycle
      && s[25].negativeCycleEdge == Some("d-b")
      && Snapshot(s[25]) == Pass4
  {
    DefaultRun();
    DefaultWitness();
    DefaultResolved();
    TraceShape(Nodes, Edges, Order, "a");
    TraceVerdict(Nodes, Edges, Order, "a");
  }

  lemma DefaultResolved()
    ensures |Resolved(Edges, Order)| == 6
  {
    DefaultFind(0); DefaultFind(1); DefaultFind(2); DefaultFind(3); DefaultFind(4); DefaultFind(5);
    assert |Resolved(Edges, Order[6..])| == 0;
    assert |Resolved(Edges, Order[5..])| == 1;
    assert |Resolved(Edges, Order[4..])| == 2;
    assert |Resolved(Edges, Order[3..])| == 3;
    assert |Resolved(Edges, Order[2..])| == 4;
    assert |Resolved(Edges, Order[1..])| == 5;
  }

  /** The run flow extracts from b, the target of the witness. The walk
      back visits b, d, e and stops when the predecessor of e is b again;
      the extraction as written returns just ["b"], whose predecessor is d,
      while the intended extraction returns the cycle e, d, b. */
  lemma DefaultCycle()
    ensures CycleAsWritten(Pass4.pred, "b", "a", 5) == ["b"]
    ensures !ClosesUp(Pass4.pred, ["b"])
    ensures CycleClosed(Pass4.pred, "b", "a", 5) == ["e", "d", "b"]
    ensures ClosesUp(Pass4.pred, ["e", "d", "b"])
  {
    DefaultFinal();
    var p := Pass4.pred;
    assert Lookup(p, "b") == Some("d") && Lookup(p, "d") == Some("e") && Lookup(p, "e") == Some("b");
    assert Walk(p, "a", 5, ["d", "b"], Some("e")) == (["e", "d", "b"], Some("b")) by {
      assert ["e"] + ["d", "b"] == ["e", "d", "b"];
      assert "e" !in ["d", "b"];
    }
    assert Walk(p, "a", 5, ["b"], Some("d")) == (["e", "d", "b"], Some("b")) by {
      assert ["d"] + ["b"] == ["d", "b"];
      assert "d" !in ["b"] && "e" !in ["d", "b"];
    }
    assert Walk(p, "a", 5, [], Some("b")) == (["e", "d", "b"], Some("b")) by {
      assert ["b"] + [] == ["b"];
    }
    assert IndexOf(["e", "d", "b"], "b") == 2;
  }

  /** The walk a -> c -> d from the source, and the cycle d -> b -> e -> d. */
  const ToD: seq<Edge> := [Edges[1], Edges[3]]
  const CycleDBE: seq<Edge> := [Edges[2], Edges[4], Edges[5]]

  /** Every edge of the demonstration is examined by every pass, and its
      endpoints are nodes. */
  lemma DefaultExamined(i: nat)
    requires i < 6
    ensures Edges[i].from in (set x | x in Nodes) && Edges[i].to in (set x | x in Nodes)
    ensures exists j :: 0 <= j < |Order| && Find(Edges, Order[j]) == Some(Edges[i])
  {
    DefaultFind(i);
  }

  /** The walk to d starts at the source and meets the cycle. */
  lemma DefaultToDWalk()
    ensures IsWalk(ToD) && ToD[0].from == "a" && ToD[|ToD| - 1].to == CycleDBE[0].from
  {
    assert ToD == [Edges[1], Edges[3]];
  }

  /** The walk to d uses edges every pass examines. */
  lemma DefaultToD()
    ensures Examined((set x | x in Nodes), Edges, Order, ToD)
  {
    var keys := set x | x in Nodes;
    forall i | 0 <= i < |ToD|
      ensures && ToD[i].from in keys && ToD[i].to in keys
              && exists j :: 0 <= j < |Order| && Find(Edges, Order[j]) == Some(ToD[i])
    {
      var k := if i == 0 then 1 else 3;
      assert ToD[i] == Edges[k];
      DefaultExamined(k);
    }
  }

  /** The cycle is a walk that closes up at d. */
  lemma DefaultDBEWalk()
    ensures IsWalk(CycleDBE) && CycleDBE[|CycleDBE| - 1].to == CycleDBE[0].from
  {
    assert CycleDBE == [Edges[2], Edges[4], Edges[5]];
  }

  /** The cycle uses edges every pass examines. */
  lemma DefaultDBE()
    ensures Examined((set x | x in Nodes), Edges, Order, CycleDBE)
  {
    var keys := set x | x in Nodes;
    forall i | 0 <= i < |CycleDBE|
      ensures && CycleDBE[i].from in keys && CycleDBE[i].to in keys
              && exists j :: 0 <= j < |Order| && Find(Edges, Order[j]) == Some(CycleDBE[i])
    {
      var k := if i == 0 then 2 else if i == 1 then 4 else 5;
      assert CycleDBE[i] == Edges[k];
      DefaultExamined(k);
    }
  }

  /** The cycle weighs 2 - 4 + 1 = -1. */
  lemma DefaultDBEWeight()
    ensures Weight(CycleDBE) == -1
  {
    var c := CycleDBE;
    var c2 := c[..2];
    var c1 := c2[..1];
    assert c1 == [Edges[2]] && c1[..0] == [];
    assert Weight(c1) == 2;
    assert c2 == [Edges[2], Edges[4]] && c2[..1] == c1;
    assert Weight(c2) == -2;
    assert c[..2] == c2;
  }

  /** Since that cycle is reached from the source, the general detection
      lemma alone shows that the scan on the final tables finds a witness,
      without computing the passes. */
  lemma DefaultCycleDetected()
    ensures FirstWitness(After(Initial(Nodes, "a"), Edges, Order, Passes(Nodes)), Edges, Order).Some?
  {
    DefaultToDWalk();
    DefaultToD();
    DefaultDBEWalk();
    DefaultDBE();
    DefaultDBEWeight();
    NegativeCycleDetected(Nodes, "a", Edges, Order, ToD, CycleDBE);
  }

  // ---------------------------------------------------------------------------
  // x -> y (1), y -> z (-3), z -> y (1), source x

  const SmallNodes: seq<string> := ["x", "y", "z"]

  const SmallEdges: seq<Edge> := [Edge("x-y", "x", "y", 1), Edge("y-z", "y", "z", -3), Edge("z-y", "z", "y", 1)]

  const SmallOrder: seq<string> := ["x-y", "y-z", "z-y"]

  const SmallStart: Tables := Tables(
    map["x" := Fin(0), "y" := Inf, "z" := Inf],
    map["x" := None, "y" := None, "z" := None])

  const SmallPass1: Tables := Tables(
    map["x" := Fin(0), "y" := Fin(-1), "z" := Fin(-2)],
    map["x" := None, "y" := Some("z"), "z" := Some("y")])

  const SmallFinal: Tables := Tables(
    map["x" := Fin(0), "y" := Fin(-3), "z" := Fin(-4)],
    SmallPass1.pred)

  lemma SmallInitial()
    ensures Initial(SmallNodes, "x") == SmallStart
  {
    var t := Initial(SmallNodes, "x");
    assert forall v :: v in SmallNodes <==> v in SmallStart.dist;
    assert t.dist.Keys == SmallStart.dist.Keys;
    assert t.pred.Keys == SmallStart.pred.Keys;
    assert forall v :: v in t.dist ==> t.dist[v] == SmallStart.dist[v];
    assert forall v :: v in t.pred ==> t.pred[v] == SmallStart.pred[v];
  }

  lemma SmallFind(i: nat)
    requires i < 3
    ensures Find(SmallEdges, SmallOrder[i]) == Some(SmallEdges[i])
  {
    assert forall j, k :: 0 <= j < k < |SmallEdges| ==> SmallEdges[j].id != SmallEdges[k].id;
    assert SmallOrder[i] == SmallEdges[i].id;
    FindUnique(SmallEdges, i);
  }

  lemma SmallPass(t: Tables)
    ensures PassOf(t, SmallEdges, SmallOrder) == Relax(Relax(Relax(t, SmallEdges[0]), SmallEdges[1]), SmallEdges[2])
  {
    SmallFind(0); SmallFind(1); SmallFind(2);
    var t1 := Relax(t, SmallEdges[0]);
    var t2 := Relax(t1, SmallEdges[1]);
    var t3 := Relax(t2, SmallEdges[2]);
    assert PassOf(t3, SmallEdges, SmallOrder[3..]) == t3;
    assert PassOf(t2, SmallEdges, SmallOrder[2..]) == t3;
    assert PassOf(t1, SmallEdges, SmallOrder[1..]) == t3;
  }

  /** Pass 1 sets y to 1, z to -2 and then y to -1 through z. */
  lemma SmallFirstPass()
    ensures Relax(Relax(Relax(SmallStart, SmallEdges[0]), SmallEdges[1]), SmallEdges[2]) == SmallPass1
  {
    var t1 := Relax(SmallStart, SmallEdges[0]);
    assert t1 == Tables(SmallStart.dist["y" := Fin(1)], SmallStart.pred["y" := Some("x")]);
    var t2 := Relax(t1, SmallEdges[1]);
    assert t2 == Tables(t1.dist["z" := Fin(-2)], t1.pred["z" := Some("y")]);
    var t3 := Relax(t2, SmallEdges[2]);
    assert t3 == Tables(t2.dist["y" := Fin(-1)], t2.pred["y" := Some("z")]);
    assert t3.dist == SmallPass1.dist && t3.pred == SmallPass1.pred;
  }

  /** Pass 2 goes round y -> z -> y once more. */
  lemma SmallSecondPass()
    ensures Relax(Relax(Relax(SmallPass1, SmallEdges[0]), SmallEdges[1]), SmallEdges[2]) == SmallFinal
  {
    var u1 := SmallPass1;
    assert Relax(u1, SmallEdges[0]) == u1;
    var u2 := Relax(u1, SmallEdges[1]);
    assert u2 == Tables(u1.dist["z" := Fin(-4)], u1.pred["z" := Some("y")]);
    var u3 := Relax(u2, SmallEdges[2]);
    assert u3 == Tables(u2.dist["y" := Fin(-3)], u2.pred["y" := Some("z")]);
    assert u3.dist == SmallFinal.dist && u3.pred == SmallFinal.pred;
  }

  lemma SmallPasses()
    ensures After(Initial(SmallNodes, "x"), SmallEdges, SmallOrder, Passes(SmallNodes)) == SmallFinal
  {
    SmallInitial();
    SmallPass(SmallStart);
    SmallFirstPass();
    SmallPass(SmallPass1);
    SmallSecondPass();
    assert Passes(SmallNodes) == 2;
    assert After(SmallStart, SmallEdges, SmallOrder, 1) == SmallPass1;
    assert After(SmallStart, SmallEdges, SmallOrder, 2) == SmallFinal;
  }

  /** The verification scan stops at y -> z. */
  lemma SmallWitness()
    ensures FirstWitness(SmallFinal, SmallEdges, SmallOrder) == Some(SmallEdges[1])
  {
    SmallFind(0); SmallFind(1);
    assert !IsWitness(SmallFinal, SmallEdges, SmallOrder[0]);
    assert IsWitness(SmallFinal, SmallEdges, SmallOrder[1]);
    assert FirstWitness(SmallFinal, SmallEdges, SmallOrder[1..]) == Some(SmallEdges[1]);
  }

  /** The walk back from z records z and y and stops on z again; the suffix
      slice ["z"] does not close up, where the prefix slice ["y", "z"] is the
      cycle y <-> z. */
  lemma SmallCycle()
    ensures CycleAsWritten(SmallFinal.pred, "z", "x", 3) == ["z"]
    ensures !ClosesUp(SmallFinal.pred, ["z"])
    ensures CycleClosed(SmallFinal.pred, "z", "x", 3) == ["y", "z"]
    ensures ClosesUp(SmallFinal.pred, ["y", "z"])
  {
    var p := SmallFinal.pred;
    assert p == map["x" := None, "y" := Some("z"), "z" := Some("y")];
    assert Lookup(p, "z") == Some("y") && Lookup(p, "y") == Some("z");
    assert Walk(p, "x", 3, ["z"], Some("y")) == (["y", "z"], Some("z")) by {
      assert ["y"] + ["z"] == ["y", "z"];
      assert "y" !in ["z"];
    }
    assert Walk(p, "x", 3, [], Some("z")) == (["y", "z"], Some("z")) by {
      assert ["z"] + [] == ["z"];
    }
    assert IndexOf(["y", "z"], "z") == 1;
  }

  /** Nodes s and v, edges s -> v (1) and v -> v (-1), source s: after the one
      pass v is its own predecessor, and the extraction as written keeps the
      one-node list ["v"], which is the self-loop, so here it is a cycle. */
  lemma SelfLoopCycle()
    ensures CycleAsWritten(map["s" := None, "v" := Some("v")], "v", "s", 2) == ["v"]
    ensures ClosesUp(map["s" := None, "v" := Some("v")], ["v"])
  {
    var p := map["s" := None, "v" := Some("v")];
    assert Lookup(p, "v") == Some("v");
    assert Walk(p, "s", 2, ["v"], Some("v")) == (["v"], Some("v"));
    assert Walk(p, "s", 2, [], Some("v")) == (["v"], Some("v")) by {
      assert ["v"] + [] == ["v"];
    }
    assert IndexOf(["v"], "v") == 0;
  }
}
