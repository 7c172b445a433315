/** What the final pass means for a list of nodes and a list of edges, whichever way it is stored. */
module GraphMeaning {
  import opened Digraphs
  import opened GraphRecords
  import opened TarjanMachine
  import opened TarjanComponents
  import opened AdjacencyArrays
  import opened ArrayTarjan

  lemma RowsWithin(nodes: seq<Node>, edges: seq<Edge>)
    requires AllEndsKnown(nodes, edges)
    ensures Within(Rows(nodes, edges), |nodes|)
    ensures WellFormed(Adjacency(Rows(nodes, edges), |nodes|))
  {
    forall k | 0 <= k < |edges|
      ensures Ordinal(nodes, edges[k].source) < |nodes| && Ordinal(nodes, edges[k].target) < |nodes|
    {
      assert EndsKnown(nodes, edges[k]);
    }
    AdjacencyWellFormed(Rows(nodes, edges), |nodes|);
  }

  ghost function FinalCycles(nodes: seq<Node>, edges: seq<Edge>): (r: seq<seq<nat>>)
    requires AllEndsKnown(nodes, edges)
  {
    RowsWithin(nodes, edges);
    Cycles(Adjacency(Rows(nodes, edges), |nodes|))
  }

  lemma FinalCyclesAre(nodes: seq<Node>, edges: seq<Edge>)
    requires AllEndsKnown(nodes, edges)
    ensures WellFormed(Adjacency(Rows(nodes, edges), |nodes|))
    ensures FinalCycles(nodes, edges) == Cycles(Adjacency(Rows(nodes, edges), |nodes|))
  {
    RowsWithin(nodes, edges);
  }

  lemma FinalCyclesInOrder(nodes: seq<Node>, edges: seq<Edge>)
    requires AllEndsKnown(nodes, edges)
    ensures InOrder(Ids(nodes), FinalCycles(nodes, edges))
  {
    FinalCyclesAre(nodes, edges);
    var g := Adjacency(Rows(nodes, edges), |nodes|);
    forall i, k | 0 <= i < |Cycles(g)| && 0 <= k < |Cycles(g)[i]| ensures Cycles(g)[i][k] < |nodes| {
      CyclesAreComponents(g, i);
      assert Cycles(g)[i][k] in Cycles(g)[i];
    }
  }

  ghost function FinalNodes(nodes: seq<Node>, edges: seq<Edge>): (r: seq<Node>)
    requires AllEndsKnown(nodes, edges)
    ensures |r| == |nodes|
  {
    var rows := Rows(nodes, edges);
    var cycles := FinalCycles(nodes, edges);
    seq(|nodes|, i requires 0 <= i < |nodes| =>
      DecorateNode(nodes[i], InDegree(rows, i), |Successors(rows, i)|, InComps(cycles, i)))
  }

  ghost function FinalEdges(nodes: seq<Node>, edges: seq<Edge>): (r: seq<Edge>)
    requires AllEndsKnown(nodes, edges)
    ensures |r| == |edges|
  {
    var rows := Rows(nodes, edges);
    var cycles := FinalCycles(nodes, edges);
    seq(|edges|, k requires 0 <= k < |edges| =>
      DecorateEdge(edges[k], InComps(cycles, rows[k].0) && InComps(cycles, rows[k].1)))
  }

  // ---------- overwriting a record ----------

  lemma SameOrdinals(nodes: seq<Node>, o: nat, value: Node, id: string)
    requires o < |nodes| && value.id == nodes[o].id
    ensures Ordinal(nodes[o := value], id) == Ordinal(nodes, id)
  {
    var after := nodes[o := value];
    assert forall i :: 0 <= i < |nodes| ==> after[i].id == nodes[i].id;
  }

  lemma SameRows(nodes: seq<Node>, edges: seq<Edge>, o: nat, value: Node)
    requires o < |nodes| && value.id == nodes[o].id
    ensures Rows(nodes[o := value], edges) == Rows(nodes, edges)
  {
    hide Ordinal;
    forall k | 0 <= k < |edges| ensures Rows(nodes[o := value], edges)[k] == Rows(nodes, edges)[k] {
      SameOrdinals(nodes, o, value, edges[k].source);
      SameOrdinals(nodes, o, value, edges[k].target);
    }
  }

  lemma StillKnown(nodes: seq<Node>, edges: seq<Edge>, o: nat, value: Node)
    requires AllEndsKnown(nodes, edges) && o < |nodes| && value.id == nodes[o].id
    ensures AllEndsKnown(nodes[o := value], edges)
  {
    var after := nodes[o := value];
    forall k | 0 <= k < |edges| ensures EndsKnown(after, edges[k]) {
      assert EndsKnown(nodes, edges[k]);
      var i :| 0 <= i < |nodes| && nodes[i].id == edges[k].source;
      var j :| 0 <= j < |nodes| && nodes[j].id == edges[k].target;
      assert after[i].id == edges[k].source && after[j].id == edges[k].target;
    }
  }

  /** A node overwritten without changing its identity changes no cycle, and no final record but its own. */
  lemma FinalAfterNode(nodes: seq<Node>, edges: seq<Edge>, o: nat, value: Node)
    requires AllEndsKnown(nodes, edges) && o < |nodes| && value.id == nodes[o].id
    ensures AllEndsKnown(nodes[o := value], edges)
    ensures FinalCycles(nodes[o := value], edges) == FinalCycles(nodes, edges)
    ensures FinalEdges(nodes[o := value], edges) == FinalEdges(nodes, edges)
    ensures var rows := Rows(nodes, edges);
      FinalNodes(nodes[o := value], edges)
        == FinalNodes(nodes, edges)[o :=
          DecorateNode(value, InDegree(rows, o), |Successors(rows, o)|, InComps(FinalCycles(nodes, edges), o))]
  {
    hide Ordinal, Rows, InComps, InDegree, Successors, DecorateNode, DecorateEdge, Cycles, Adjacency, FinalCycles;
    hide AllEndsKnown, Within, WellFormed;
    StillKnown(nodes, edges, o, value);
    SameRows(nodes, edges, o, value);
    FinalCyclesAre(nodes, edges);
    FinalCyclesAre(nodes[o := value], edges);
  }

  lemma SameRowsAfterEdge(nodes: seq<Node>, edges: seq<Edge>, o: nat, value: Edge)
    requires AllEndsKnown(nodes, edges) && o < |edges| && value.source == edges[o].source
    requires value.target == edges[o].target
    ensures AllEndsKnown(nodes, edges[o := value]) && Rows(nodes, edges[o := value]) == Rows(nodes, edges)
  {
    hide Ordinal;
    var after := edges[o := value];
    forall k | 0 <= k < |edges| ensures EndsKnown(nodes, after[k]) {
      assert EndsKnown(nodes, edges[k]);
    }
  }

  /** An edge overwritten without changing its ends changes no cycle, and no final record but its own. */
  lemma FinalAfterEdge(nodes: seq<Node>, edges: seq<Edge>, o: nat, value: Edge)
    requires AllEndsKnown(nodes, edges) && o < |edges| && value.source == edges[o].source
    requires value.target == edges[o].target
    ensures AllEndsKnown(nodes, edges[o := value])
    ensures FinalCycles(nodes, edges[o := value]) == FinalCycles(nodes, edges)
    ensures FinalNodes(nodes, edges[o := value]) == FinalNodes(nodes, edges)
    ensures var row, cycles := Rows(nodes, edges)[o], FinalCycles(nodes, edges);
      FinalEdges(nodes, edges[o := value])
        == FinalEdges(nodes, edges)[o := DecorateEdge(value, InComps(cycles, row.0) && InComps(cycles, row.1))]
  {
    hide Ordinal, Rows, InComps, InDegree, Successors, DecorateNode, DecorateEdge, Cycles, Adjacency, FinalCycles;
    hide AllEndsKnown, Within, WellFormed;
    SameRowsAfterEdge(nodes, edges, o, value);
    FinalCyclesAre(nodes, edges);
    FinalCyclesAre(nodes, edges[o := value]);
  }

  lemma {:induction false} SuccessorsAreRows(rows: seq<(nat, nat)>, u: nat, w: nat)
    ensures w in Successors(rows, u) <==> (u, w) in rows
  {
    if rows != [] {
      var init, last := rows[..|rows| - 1], rows[|rows| - 1];
      SuccessorsAreRows(init, u, w);
      assert rows == init + [last];
    }
  }

  lemma AdjacencyEdges(rows: seq<(nat, nat)>, n: nat, u: nat, w: nat)
    requires Within(rows, n)
    ensures (u, w) in EdgeSet(Adjacency(rows, n)) <==> (u, w) in rows
  {
    SuccessorsAreRows(rows, u, w);
    if (u, w) in rows {
      var k :| 0 <= k < |Successors(rows, u)| && Successors(rows, u)[k] == w;
      assert u < n && Adjacency(rows, n)[u][k] == w;
    }
  }

  /** The recorded edges as a set of ordinal pairs. */
  function Drawn(nodes: seq<Node>, edges: seq<Edge>): (r: set<(nat, nat)>) {
    var rows := Rows(nodes, edges);
    set row | row in rows
  }

  lemma DrawnIsEdgeSet(nodes: seq<Node>, edges: seq<Edge>)
    requires AllEndsKnown(nodes, edges)
    ensures WellFormed(Adjacency(Rows(nodes, edges), |nodes|))
    ensures EdgeSet(Adjacency(Rows(nodes, edges), |nodes|)) == Drawn(nodes, edges)
  {
    var rows, drawn := Rows(nodes, edges), Drawn(nodes, edges);
    var g := Adjacency(rows, |nodes|);
    RowsWithin(nodes, edges);
    forall u: nat, w: nat ensures (u, w) in EdgeSet(g) <==> (u, w) in drawn {
      AdjacencyEdges(rows, |nodes|, u, w);
    }
  }

  /** The flag written on a node says whether some non-empty chain of recorded edges leads from it
      back to it. */
  lemma FlagMeansCycle(nodes: seq<Node>, edges: seq<Edge>, v: nat)
    requires AllEndsKnown(nodes, edges) && v < |nodes|
    ensures "in_cycle" in FinalNodes(nodes, edges)[v].fields
    ensures FinalNodes(nodes, edges)[v].fields["in_cycle"] == Flag(OnCycle(Drawn(nodes, edges), v))
  {
    DrawnIsEdgeSet(nodes, edges);
    FinalCyclesAre(nodes, edges);
    ReportedIffOnCycle(Adjacency(Rows(nodes, edges), |nodes|), v);
  }

  // ---------- each cyclic node is listed once ----------

  function Flatten(cycles: seq<seq<nat>>): (r: seq<nat>) {
    if cycles == [] then [] else Flatten(cycles[..|cycles| - 1]) + cycles[|cycles| - 1]
  }

  lemma {:induction false} FlattenMembers(cycles: seq<seq<nat>>, v: nat)
    ensures v in Flatten(cycles) <==> InComps(cycles, v)
    ensures |Flatten(cycles)| == TotalSize(cycles)
  {
    if cycles != [] {
      var init, last := cycles[..|cycles| - 1], cycles[|cycles| - 1];
      FlattenMembers(init, v);
      assert cycles == init + [last];
      InCompsGrows(init, last, v);
    }
  }

  lemma {:induction false} FlattenDistinct(cycles: seq<seq<nat>>)
    requires forall i, a, b :: 0 <= i < |cycles| && 0 <= a < b < |cycles[i]| ==> cycles[i][a] != cycles[i][b]
    requires forall i, j, u :: 0 <= i < j < |cycles| && u in cycles[i] ==> u !in cycles[j]
    ensures forall a, b :: 0 <= a < b < |Flatten(cycles)| ==> Flatten(cycles)[a] != Flatten(cycles)[b]
  {
    if cycles != [] {
      var init, last := cycles[..|cycles| - 1], cycles[|cycles| - 1];
      FlattenDistinct(init);
      forall u | u in Flatten(init) ensures u !in last {
        FlattenMembers(init, u);
        var i :| 0 <= i < |init| && u in init[i];
        assert u in cycles[i];
      }
      var all, head := Flatten(cycles), Flatten(init);
      assert all == head + last;
      forall a, b | 0 <= a < b < |all| ensures all[a] != all[b] {
        if a < |head| <= b {
          assert head[a] in head && last[b - |head|] in last;
        } else if |head| <= a {
          assert cycles[|cycles| - 1][a - |head|] != cycles[|cycles| - 1][b - |head|];
        }
      }
    }
  }

  /** Walking the cyclic-node view meets every node on a cycle exactly once, as many as are counted. */
  lemma CyclicViewListsEachOnce(nodes: seq<Node>, edges: seq<Edge>)
    requires AllEndsKnown(nodes, edges)
    ensures var all := Flatten(FinalCycles(nodes, edges));
      && |all| == TotalSize(FinalCycles(nodes, edges))
      && (forall a, b :: 0 <= a < b < |all| ==> all[a] != all[b])
      && (forall v :: v in all <==> InComps(FinalCycles(nodes, edges), v))
  {
    FinalCyclesAre(nodes, edges);
    var g := Adjacency(Rows(nodes, edges), |nodes|);
    var cycles := FinalCycles(nodes, edges);
    forall i, a, b | 0 <= i < |cycles| && 0 <= a < b < |cycles[i]| ensures cycles[i][a] != cycles[i][b] {
      CyclesAreComponents(g, i);
    }
    forall i, j, u | 0 <= i < j < |cycles| && u in cycles[i] ensures u !in cycles[j] {
      if u in cycles[j] { CyclesInReverseOrder(g, i, j, u, u); }
    }
    FlattenDistinct(cycles);
    FlattenMembers(cycles, 0);
    forall v ensures v in Flatten(cycles) <==> InComps(cycles, v) { FlattenMembers(cycles, v); }
  }
}
