/** What the final pass writes, read off the recorded nodes and edges by name alone: which edges
    count towards a degree, which chains make a cycle, and which names are listed together. */
module FinalRecords {
  import opened Digraphs
  import opened GraphRecords
  import opened GraphMeaning
  import opened TarjanMachine
  import opened TarjanComponents
  import opened AdjacencyArrays

  /** One or more recorded edges, each starting where the one before it ends, from x to y. */
  ghost predicate Chain(edges: seq<Edge>, chain: seq<Edge>, x: string, y: string) {
    && chain != [] && (forall i :: 0 <= i < |chain| ==> chain[i] in edges)
    && chain[0].source == x && chain[|chain| - 1].target == y
    && forall i :: 0 <= i < |chain| - 1 ==> chain[i].target == chain[i + 1].source
  }

  ghost predicate Leads(edges: seq<Edge>, x: string, y: string) {
    exists chain :: Chain(edges, chain, x, y)
  }

  // ---------- degrees ----------

  lemma {:induction false} InDegreeCounts(rows: seq<(nat, nat)>, v: nat)
    ensures InDegree(rows, v) == |set k: nat | k < |rows| && rows[k].1 == v|
  {
    var hits := set k: nat | k < |rows| && rows[k].1 == v;
    if rows == [] {
      assert hits == {};
    } else {
      var init := rows[..|rows| - 1];
      var before := set k: nat | k < |init| && init[k].1 == v;
      InDegreeCounts(init, v);
      if rows[|rows| - 1].1 == v {
        assert hits == before + {|rows| - 1};
      } else {
        assert hits == before;
      }
    }
  }

  lemma {:induction false} OutDegreeCounts(rows: seq<(nat, nat)>, v: nat)
    ensures |Successors(rows, v)| == |set k: nat | k < |rows| && rows[k].0 == v|
  {
    var hits := set k: nat | k < |rows| && rows[k].0 == v;
    if rows == [] {
      assert hits == {};
    } else {
      var init := rows[..|rows| - 1];
      var before := set k: nat | k < |init| && init[k].0 == v;
      OutDegreeCounts(init, v);
      if rows[|rows| - 1].0 == v {
        assert hits == before + {|rows| - 1};
      } else {
        assert hits == before;
      }
    }
  }

  /** The row of an edge holds the places of its ends. */
  lemma RowPlaces(nodes: seq<Node>, edges: seq<Edge>, k: nat)
    requires AllEndsKnown(nodes, edges) && k < |edges|
    ensures var row := Rows(nodes, edges)[k];
      && row.0 < |nodes| && row.1 < |nodes|
      && nodes[row.0].id == edges[k].source && nodes[row.1].id == edges[k].target
  {
    assert EndsKnown(nodes, edges[k]);
  }

  lemma PlaceIsName(nodes: seq<Node>, edges: seq<Edge>, k: nat, v: nat)
    requires DistinctIds(nodes) && AllEndsKnown(nodes, edges) && k < |edges| && v < |nodes|
    ensures Rows(nodes, edges)[k].0 == v <==> edges[k].source == nodes[v].id
    ensures Rows(nodes, edges)[k].1 == v <==> edges[k].target == nodes[v].id
  {
    hide Rows, AllEndsKnown;
    RowPlaces(nodes, edges, k);
  }

  lemma DegreesByName(nodes: seq<Node>, edges: seq<Edge>, v: nat)
    requires DistinctIds(nodes) && AllEndsKnown(nodes, edges) && v < |nodes|
    ensures var rows := Rows(nodes, edges);
      && InDegree(rows, v) == |set k: nat | k < |edges| && edges[k].target == nodes[v].id|
      && |Successors(rows, v)| == |set k: nat | k < |edges| && edges[k].source == nodes[v].id|
  {
    hide Rows, AllEndsKnown, DistinctIds, InDegree, Successors;
    var rows := Rows(nodes, edges);
    InDegreeCounts(rows, v);
    OutDegreeCounts(rows, v);
    forall k: nat | k < |edges|
      ensures rows[k].0 == v <==> edges[k].source == nodes[v].id
      ensures rows[k].1 == v <==> edges[k].target == nodes[v].id
    {
      PlaceIsName(nodes, edges, k, v);
    }
    assert (set k: nat | k < |rows| && rows[k].1 == v) == set k: nat | k < |edges| && edges[k].target == nodes[v].id;
    assert (set k: nat | k < |rows| && rows[k].0 == v) == set k: nat | k < |edges| && edges[k].source == nodes[v].id;
  }

  // ---------- chains ----------

  lemma DrawnIs(nodes: seq<Node>, edges: seq<Edge>, u: nat, w: nat)
    requires DistinctIds(nodes) && AllEndsKnown(nodes, edges) && u < |nodes| && w < |nodes|
    ensures (u, w) in Drawn(nodes, edges)
      <==> exists e :: e in edges && e.source == nodes[u].id && e.target == nodes[w].id
  {
    hide AllEndsKnown, DistinctIds;
    var rows := Rows(nodes, edges);
    if (u, w) in Drawn(nodes, edges) {
      var k :| 0 <= k < |rows| && rows[k] == (u, w);
      RowPlaces(nodes, edges, k);
      assert edges[k] in edges;
    }
    if e :| e in edges && e.source == nodes[u].id && e.target == nodes[w].id {
      var k :| 0 <= k < |edges| && edges[k] == e;
      PlaceIsName(nodes, edges, k, u);
      PlaceIsName(nodes, edges, k, w);
      assert rows[k] in rows;
    }
  }

  lemma DrawnWithin(nodes: seq<Node>, edges: seq<Edge>, u: nat, w: nat)
    requires AllEndsKnown(nodes, edges) && (u, w) in Drawn(nodes, edges)
    ensures u < |nodes| && w < |nodes|
  {
    var rows := Rows(nodes, edges);
    var k :| 0 <= k < |rows| && rows[k] == (u, w);
    RowPlaces(nodes, edges, k);
  }

  /** A walk of at least one edge over places is a chain over names. */
  lemma {:induction false} WalkIsChain(nodes: seq<Node>, edges: seq<Edge>, walk: seq<nat>) returns (chain: seq<Edge>)
    requires DistinctIds(nodes) && AllEndsKnown(nodes, edges)
    requires |walk| >= 2 && IsWalk(Drawn(nodes, edges), walk)
    requires walk[0] < |nodes| && walk[|walk| - 1] < |nodes|
    ensures Chain(edges, chain, nodes[walk[0]].id, nodes[walk[|walk| - 1]].id)
    decreases |walk|
  {
    hide AllEndsKnown, DistinctIds, Drawn;
    assert (walk[0], walk[0 + 1]) in Drawn(nodes, edges);
    DrawnWithin(nodes, edges, walk[0], walk[1]);
    DrawnIs(nodes, edges, walk[0], walk[1]);
    var e :| e in edges && e.source == nodes[walk[0]].id && e.target == nodes[walk[1]].id;
    if |walk| == 2 {
      chain := [e];
    } else {
      forall i | 0 <= i < |walk[1..]| - 1 ensures (walk[1..][i], walk[1..][i + 1]) in Drawn(nodes, edges) {
        assert (walk[i + 1], walk[i + 1 + 1]) in Drawn(nodes, edges);
      }
      var rest := WalkIsChain(nodes, edges, walk[1..]);
      chain := [e] + rest;
    }
  }

  lemma EndPlace(nodes: seq<Node>, edges: seq<Edge>, e: Edge) returns (w: nat)
    requires AllEndsKnown(nodes, edges) && e in edges
    ensures w < |nodes| && nodes[w].id == e.target
  {
    var k :| 0 <= k < |edges| && edges[k] == e;
    RowPlaces(nodes, edges, k);
    w := Rows(nodes, edges)[k].1;
  }

  lemma SameName(nodes: seq<Node>, u: nat, v: nat)
    requires DistinctIds(nodes) && u < |nodes| && v < |nodes| && nodes[u].id == nodes[v].id
    ensures u == v
  {
  }

  lemma {:induction false} ChainIsWalk(nodes: seq<Node>, edges: seq<Edge>, chain: seq<Edge>, u: nat, v: nat)
    requires DistinctIds(nodes) && AllEndsKnown(nodes, edges) && u < |nodes| && v < |nodes|
    requires Chain(edges, chain, nodes[u].id, nodes[v].id)
    ensures exists w :: (u, w) in Drawn(nodes, edges) && Reaches(Drawn(nodes, edges), w, v)
    decreases |chain|
  {
    hide AllEndsKnown, DistinctIds, Drawn, Reaches;
    var w := EndPlace(nodes, edges, chain[0]);
    DrawnIs(nodes, edges, u, w);
    if |chain| == 1 {
      SameName(nodes, w, v);
      ReachesSelf(Drawn(nodes, edges), v);
    } else {
      assert Chain(edges, chain[1..], nodes[w].id, nodes[v].id) by {
        assert forall i :: 0 <= i < |chain[1..]| ==> chain[1..][i] == chain[i + 1];
      }
      ChainIsWalk(nodes, edges, chain[1..], w, v);
      var x :| (w, x) in Drawn(nodes, edges) && Reaches(Drawn(nodes, edges), x, v);
      ReachesEdge(Drawn(nodes, edges), w, x);
      ReachesTransitive(Drawn(nodes, edges), w, x, v);
    }
  }

  /** Between places the graph leads exactly where chains lead between names. */
  lemma LeadsIs(nodes: seq<Node>, edges: seq<Edge>, u: nat, v: nat)
    requires DistinctIds(nodes) && AllEndsKnown(nodes, edges) && u < |nodes| && v < |nodes|
    ensures Leads(edges, nodes[u].id, nodes[v].id)
      <==> exists w :: (u, w) in Drawn(nodes, edges) && Reaches(Drawn(nodes, edges), w, v)
  {
    hide AllEndsKnown, DistinctIds, Drawn, Chain;
    var drawn := Drawn(nodes, edges);
    if w :| (u, w) in drawn && Reaches(drawn, w, v) {
      var walk :| WalkFromTo(drawn, walk, w, v);
      forall i | 0 <= i < |[u] + walk| - 1 ensures (([u] + walk)[i], ([u] + walk)[i + 1]) in drawn {
        if i > 0 { assert (walk[i - 1], walk[i - 1 + 1]) in drawn; }
      }
      var chain := WalkIsChain(nodes, edges, [u] + walk);
    }
    if chain :| Chain(edges, chain, nodes[u].id, nodes[v].id) {
      ChainIsWalk(nodes, edges, chain, u, v);
    }
  }

  // ---------- the records ----------

  /** A node gains how many recorded edges name it as their target, how many as their source, and
      whether a chain of recorded edges leads from it back to itself. Nothing else about it changes. */
  lemma NodeIsDecorated(nodes: seq<Node>, edges: seq<Edge>, v: nat)
    requires DistinctIds(nodes) && AllEndsKnown(nodes, edges) && v < |nodes|
    ensures |FinalNodes(nodes, edges)| == |nodes|
    ensures FinalNodes(nodes, edges)[v] == Node(nodes[v].id, nodes[v].fields + map[
      "in_degree" := Number(|set k: nat | k < |edges| && edges[k].target == nodes[v].id|),
      "out_degree" := Number(|set k: nat | k < |edges| && edges[k].source == nodes[v].id|),
      "in_cycle" := Flag(exists chain :: Chain(edges, chain, nodes[v].id, nodes[v].id))])
  {
    hide AllEndsKnown, DistinctIds, Drawn, Chain, InDegree, Successors, FinalCycles, InComps, Rows;
    DegreesByName(nodes, edges, v);
    FlagMeansCycle(nodes, edges, v);
    LeadsIs(nodes, edges, v, v);
  }

  lemma FlagByName(nodes: seq<Node>, edges: seq<Edge>, v: nat)
    requires DistinctIds(nodes) && AllEndsKnown(nodes, edges) && v < |nodes|
    ensures InComps(FinalCycles(nodes, edges), v) <==> exists chain :: Chain(edges, chain, nodes[v].id, nodes[v].id)
  {
    hide AllEndsKnown, DistinctIds, Drawn, Chain, InDegree, Successors, FinalCycles, InComps, Rows;
    FlagMeansCycle(nodes, edges, v);
    LeadsIs(nodes, edges, v, v);
  }

  /** An edge gains whether both its ends lie on such chains. Nothing else about it changes. */
  lemma EdgeIsDecorated(nodes: seq<Node>, edges: seq<Edge>, k: nat)
    requires DistinctIds(nodes) && AllEndsKnown(nodes, edges) && k < |edges|
    ensures |FinalEdges(nodes, edges)| == |edges|
    ensures FinalEdges(nodes, edges)[k] == edges[k].(extra := edges[k].extra + map["in_cycle" := Flag(
      && (exists chain :: Chain(edges, chain, edges[k].source, edges[k].source))
      && (exists chain :: Chain(edges, chain, edges[k].target, edges[k].target)))])
  {
    hide AllEndsKnown, DistinctIds, Chain, FinalCycles, InComps, Rows;
    RowPlaces(nodes, edges, k);
    FlagByName(nodes, edges, Rows(nodes, edges)[k].0);
    FlagByName(nodes, edges, Rows(nodes, edges)[k].1);
  }

  // ---------- the lists of names ----------

  lemma ListedTogether(nodes: seq<Node>, edges: seq<Edge>, c: nat, u: nat, v: nat)
    requires AllEndsKnown(nodes, edges) && c < |FinalCycles(nodes, edges)| && u in FinalCycles(nodes, edges)[c]
    ensures v in FinalCycles(nodes, edges)[c]
      <==> Reaches(Drawn(nodes, edges), u, v) && Reaches(Drawn(nodes, edges), v, u)
  {
    FinalCyclesAre(nodes, edges);
    DrawnIsEdgeSet(nodes, edges);
    hide Reaches, AllEndsKnown, Rows, Drawn, FinalCycles, Cycles, Circular;
    CyclesAreComponents(Adjacency(Rows(nodes, edges), |nodes|), c);
  }

  lemma ReachesByName(nodes: seq<Node>, edges: seq<Edge>, u: nat, v: nat)
    requires DistinctIds(nodes) && AllEndsKnown(nodes, edges) && u < |nodes| && v < |nodes| && u != v
    ensures Reaches(Drawn(nodes, edges), u, v) <==> Leads(edges, nodes[u].id, nodes[v].id)
  {
    hide DistinctIds, AllEndsKnown, Leads, Drawn;
    LeadsIs(nodes, edges, u, v);
    var drawn := Drawn(nodes, edges);
    if Reaches(drawn, u, v) {
      var walk :| WalkFromTo(drawn, walk, u, v);
      assert (walk[0], walk[0 + 1]) in drawn;
      assert WalkFromTo(drawn, walk[1..], walk[1], v) by {
        forall i | 0 <= i < |walk[1..]| - 1 ensures (walk[1..][i], walk[1..][i + 1]) in drawn {
          assert (walk[i + 1], walk[i + 1 + 1]) in drawn;
        }
      }
    }
    if w :| (u, w) in drawn && Reaches(drawn, w, v) {
      ReachesEdge(drawn, u, w);
      ReachesTransitive(drawn, u, w, v);
    }
  }

  lemma NamePlace(nodes: seq<Node>, cycles: seq<seq<nat>>, c: nat, v: nat)
    requires DistinctIds(nodes) && InOrder(Ids(nodes), cycles) && c < |cycles| && v < |nodes|
    ensures nodes[v].id in NamesOfAll(Ids(nodes), cycles)[c] <==> v in cycles[c]
  {
    var names := NamesOfAll(Ids(nodes), cycles)[c];
    if nodes[v].id in names {
      var k :| 0 <= k < |names| && names[k] == nodes[v].id;
      SameName(nodes, cycles[c][k], v);
    }
    if v in cycles[c] {
      var k :| 0 <= k < |cycles[c]| && cycles[c][k] == v;
      assert names[k] == nodes[v].id;
    }
  }

  lemma IsListed(cycles: seq<seq<nat>>, c: nat, v: nat)
    requires c < |cycles| && v in cycles[c]
    ensures InComps(cycles, v)
  {
  }

  /** Two names are listed together exactly when chains of recorded edges lead from each of them to
      the other; for a name and itself that is the chain that makes a cycle. */
  lemma ListsByName(nodes: seq<Node>, edges: seq<Edge>, c: nat, u: nat, v: nat)
    requires DistinctIds(nodes) && AllEndsKnown(nodes, edges) && u < |nodes| && v < |nodes|
    ensures InOrder(Ids(nodes), FinalCycles(nodes, edges))
    ensures var names := NamesOfAll(Ids(nodes), FinalCycles(nodes, edges));
      c < |names| && nodes[u].id in names[c] ==>
        (nodes[v].id in names[c] <==>
          (exists there :: Chain(edges, there, nodes[u].id, nodes[v].id))
          && (exists back :: Chain(edges, back, nodes[v].id, nodes[u].id)))
  {
    hide DistinctIds, AllEndsKnown, Drawn, Reaches, Chain, FinalCycles, InOrder, NamesOfAll, InComps;
    FinalCyclesInOrder(nodes, edges);
    var cycles := FinalCycles(nodes, edges);
    if c < |cycles| {
      NamePlace(nodes, cycles, c, u);
      NamePlace(nodes, cycles, c, v);
      if u in cycles[c] {
        ListedTogether(nodes, edges, c, u, v);
        if u == v {
          IsListed(cycles, c, u);
          FlagByName(nodes, edges, u);
        } else {
          ReachesByName(nodes, edges, u, v);
          ReachesByName(nodes, edges, v, u);
        }
      }
    }
  }

  lemma NoRepeats(nodes: seq<Node>, edges: seq<Edge>, c: nat, i: nat, j: nat)
    requires DistinctIds(nodes) && AllEndsKnown(nodes, edges) && InOrder(Ids(nodes), FinalCycles(nodes, edges))
    requires c < |FinalCycles(nodes, edges)| && i < j < |FinalCycles(nodes, edges)[c]|
    ensures var names := NamesOfAll(Ids(nodes), FinalCycles(nodes, edges)); names[c][i] != names[c][j]
  {
    FinalCyclesAre(nodes, edges);
    DrawnIsEdgeSet(nodes, edges);
    hide Reaches, AllEndsKnown, Rows, Drawn, FinalCycles, Cycles, Circular;
    CyclesAreComponents(Adjacency(Rows(nodes, edges), |nodes|), c);
  }

  lemma NoChainAhead(nodes: seq<Node>, edges: seq<Edge>, c: nat, d: nat, u: nat, v: nat)
    requires DistinctIds(nodes) && AllEndsKnown(nodes, edges) && u < |nodes| && v < |nodes|
    requires c < d < |FinalCycles(nodes, edges)|
    requires u in FinalCycles(nodes, edges)[c] && v in FinalCycles(nodes, edges)[d]
    ensures !exists chain :: Chain(edges, chain, nodes[u].id, nodes[v].id)
  {
    FinalCyclesAre(nodes, edges);
    DrawnIsEdgeSet(nodes, edges);
    hide Reaches, AllEndsKnown, DistinctIds, Rows, Drawn, FinalCycles, Cycles, Chain;
    CyclesInReverseOrder(Adjacency(Rows(nodes, edges), |nodes|), c, d, u, v);
    ReachesByName(nodes, edges, u, v);
  }

  /** A name is listed exactly when a chain leads from it back to itself; no list repeats a name, and
      no chain leads from a name in an earlier list to one in a later list. */
  lemma ListsAreApart(nodes: seq<Node>, edges: seq<Edge>, u: nat, v: nat)
    requires DistinctIds(nodes) && AllEndsKnown(nodes, edges) && u < |nodes| && v < |nodes|
    ensures InOrder(Ids(nodes), FinalCycles(nodes, edges))
    ensures var names := NamesOfAll(Ids(nodes), FinalCycles(nodes, edges));
      && ((exists c :: 0 <= c < |names| && nodes[u].id in names[c])
          <==> exists chain :: Chain(edges, chain, nodes[u].id, nodes[u].id))
      && (forall c, i, j :: 0 <= c < |names| && 0 <= i < j < |names[c]| ==> names[c][i] != names[c][j])
      && (forall c, d :: 0 <= c < d < |names| && nodes[u].id in names[c] && nodes[v].id in names[d] ==>
            !exists chain :: Chain(edges, chain, nodes[u].id, nodes[v].id))
  {
    hide DistinctIds, AllEndsKnown, Drawn, Reaches, Chain, FinalCycles, InOrder, NamesOfAll;
    FinalCyclesInOrder(nodes, edges);
    var cycles := FinalCycles(nodes, edges);
    var names := NamesOfAll(Ids(nodes), cycles);
    FlagByName(nodes, edges, u);
    forall c: nat | c < |cycles| ensures nodes[u].id in names[c] <==> u in cycles[c] {
      NamePlace(nodes, cycles, c, u);
    }
    forall c, i, j | 0 <= c < |names| && 0 <= i < j < |names[c]| ensures names[c][i] != names[c][j] {
      NoRepeats(nodes, edges, c, i, j);
    }
    forall c, d | 0 <= c < d < |names| && nodes[u].id in names[c] && nodes[v].id in names[d]
      ensures !exists chain :: Chain(edges, chain, nodes[u].id, nodes[v].id)
    {
      NamePlace(nodes, cycles, d, v);
      NoChainAhead(nodes, edges, c, d, u, v);
    }
  }
}
