/** The graph under construction: dictionaries and lists in memory, or the disk-backed store, or
    the first spilling into the second between two formulas. */
module AstGraphs {
  import opened Options
  import opened GraphRecords
  import opened GraphStores
  import opened OrderedDicts
  import opened GraphMeaning
  import opened TarjanMachine
  import opened TarjanComponents
  import opened AdjacencyArrays
  import opened MemoryTarjan

  datatype EdgeIdentity = EdgeIdentity(source: string, target: string, role: string, argIndex: nat, ref: string)

  function IdentityOf(e: Edge): (r: EdgeIdentity) {
    EdgeIdentity(e.source, e.target, e.role, e.argIndex, e.ref)
  }

  function Identities(edges: seq<Edge>): (r: set<EdgeIdentity>) {
    set e | e in edges :: IdentityOf(e)
  }

  ghost predicate CellKnown(nodes: seq<Node>, edge: Edge) {
    edge.cell == "" || Known(nodes, edge.cell)
  }

  ghost predicate AllCellsKnown(nodes: seq<Node>, edges: seq<Edge>) {
    forall k :: 0 <= k < |edges| ==> CellKnown(nodes, edges[k])
  }

  lemma KnownGrows(nodes: seq<Node>, node: Node, id: string)
    requires Known(nodes, id)
    ensures Known(WithNode(nodes, node), id)
  {
    var i :| 0 <= i < |nodes| && nodes[i].id == id;
    assert WithNode(nodes, node)[i].id == id;
  }

  lemma AllKnownGrows(nodes: seq<Node>, node: Node, edges: seq<Edge>)
    requires AllEndsKnown(nodes, edges) && AllCellsKnown(nodes, edges)
    ensures AllEndsKnown(WithNode(nodes, node), edges) && AllCellsKnown(WithNode(nodes, node), edges)
  {
    forall k | 0 <= k < |edges|
      ensures EndsKnown(WithNode(nodes, node), edges[k]) && CellKnown(WithNode(nodes, node), edges[k])
    {
      assert EndsKnown(nodes, edges[k]) && CellKnown(nodes, edges[k]);
      KnownGrows(nodes, node, edges[k].source);
      KnownGrows(nodes, node, edges[k].target);
      if edges[k].cell != "" { KnownGrows(nodes, node, edges[k].cell); }
    }
  }

  lemma ValidIsCoherent(store: GraphStore)
    requires store.Valid()
    ensures store.Coherent() && store.Readable()
    ensures store.nodeViews == store.nodes && store.edgeViews == store.edges
  {
  }

  /** The record of an identity, if it has one. */
  function NodeOf(nodes: seq<Node>, id: string): (r: Option<Node>) {
    var o := Ordinal(nodes, id);
    if o < |nodes| then Some(nodes[o]) else None
  }

  ghost predicate GatheredAt(nodes: seq<Node>, rows: seq<(nat, nat)>, ins: map<string, nat>, outs: map<string, nat>,
                             succ: map<string, seq<string>>, v: nat)
    requires v < |nodes|
  {
    var id := nodes[v].id;
    && id in ins && ins[id] == InDegree(rows, v)
    && id in outs && outs[id] == |Successors(rows, v)|
    && |Neighbours(succ, id)| == |Successors(rows, v)|
    && forall k :: 0 <= k < |Successors(rows, v)| ==>
         Successors(rows, v)[k] < |nodes| && Neighbours(succ, id)[k] == nodes[Successors(rows, v)[k]].id
  }

  ghost predicate Gathered(nodes: seq<Node>, rows: seq<(nat, nat)>, ins: map<string, nat>, outs: map<string, nat>,
                           succ: map<string, seq<string>>) {
    forall v :: 0 <= v < |nodes| ==> GatheredAt(nodes, rows, ins, outs, succ, v)
  }

  /** Every identity that is a member of some cycle. */
  function CyclicNames(names: seq<seq<string>>): (r: set<string>)
    ensures forall s :: s in r <==> exists i :: 0 <= i < |names| && s in names[i]
  {
    if names == [] then {}
    else
      var rest := CyclicNames(names[1..]);
      var all := rest + set s | s in names[0];
      assert forall i :: 0 < i < |names| ==> names[i] == names[1..][i - 1];
      assert forall s :: s in all <==> exists i :: 0 <= i < |names| && s in names[i] by {
        forall s | s in rest ensures exists i :: 0 <= i < |names| && s in names[i] {
          var i :| 0 <= i < |names[1..]| && s in names[1..][i];
          assert s in names[i + 1];
        }
      }
      all
  }

  /** Degrees and cyclic names as gathered from the edges and the cycles. */
  ghost predicate FlagInputs(nodes: seq<Node>, edges: seq<Edge>, ins: map<string, nat>, outs: map<string, nat>,
                             succ: map<string, seq<string>>, cyclic: set<string>) {
    && DistinctIds(nodes) && AllEndsKnown(nodes, edges) && Gathered(nodes, Rows(nodes, edges), ins, outs, succ)
    && InOrder(Ids(nodes), FinalCycles(nodes, edges))
      && cyclic == CyclicNames(NamesOfAll(Ids(nodes), FinalCycles(nodes, edges)))
  }

  lemma FinalSize(nodes: seq<Node>, edges: seq<Edge>, ins: map<string, nat>, outs: map<string, nat>,
                  succ: map<string, seq<string>>, cyclic: set<string>)
    requires FlagInputs(nodes, edges, ins, outs, succ, cyclic)
    ensures AllEndsKnown(nodes, edges)
    ensures |FinalNodes(nodes, edges)| == |nodes| == |Ids(nodes)|
  {
    hide FinalCycles, InComps, Rows;
  }

  lemma CyclicNameIff(nodes: seq<Node>, cycles: seq<seq<nat>>, v: nat)
    requires DistinctIds(nodes) && v < |nodes| && InOrder(Ids(nodes), cycles)
    ensures nodes[v].id in CyclicNames(NamesOfAll(Ids(nodes), cycles)) <==> InComps(cycles, v)
  {
    var names := NamesOfAll(Ids(nodes), cycles);
    var id := nodes[v].id;
    if InComps(cycles, v) {
      var i :| 0 <= i < |cycles| && v in cycles[i];
      var k :| 0 <= k < |cycles[i]| && cycles[i][k] == v;
      assert names[i][k] == id;
    }
    if i :| 0 <= i < |names| && id in names[i] {
      var k :| 0 <= k < |names[i]| && names[i][k] == id;
      assert nodes[cycles[i][k]].id == id;
      assert cycles[i][k] == v;
    }
  }

  lemma FinalAt(nodes: seq<Node>, edges: seq<Edge>, ins: map<string, nat>, outs: map<string, nat>,
                succ: map<string, seq<string>>, cyclic: set<string>, i: nat)
    requires i < |nodes| && FlagInputs(nodes, edges, ins, outs, succ, cyclic)
    ensures AllEndsKnown(nodes, edges)
    ensures i < |FinalNodes(nodes, edges)| && nodes[i].id in ins && nodes[i].id in outs
    ensures FinalNodes(nodes, edges)[i]
        == DecorateNode(nodes[i], ins[nodes[i].id], outs[nodes[i].id], nodes[i].id in cyclic)
  {
    hide FinalCycles, InComps, CyclicNames, DistinctIds, Rows, InOrder;
    assert GatheredAt(nodes, Rows(nodes, edges), ins, outs, succ, i);
    CyclicNameIff(nodes, FinalCycles(nodes, edges), i);
  }

  lemma GatherStep(nodes: seq<Node>, rows: seq<(nat, nat)>, k: nat, edge: Edge,
                   ins: map<string, nat>, outs: map<string, nat>, succ: map<string, seq<string>>, v: nat)
    requires DistinctIds(nodes) && k < |rows| && rows[k].0 < |nodes| && rows[k].1 < |nodes| && v < |nodes|
    requires edge.source == nodes[rows[k].0].id && edge.target == nodes[rows[k].1].id && edge.source in outs
    requires edge.target in ins
    requires GatheredAt(nodes, rows[..k], ins, outs, succ, v)
    ensures GatheredAt(nodes, rows[..k + 1], ins[edge.target := ins[edge.target] + 1],
        outs[edge.source := outs[edge.source] + 1],
              succ[edge.source := Neighbours(succ, edge.source) + [edge.target]], v)
  {
    hide Successors, InDegree;
    NextSuccessor(rows, k, v);
    assert nodes[v].id == edge.source <==> v == rows[k].0;
    assert nodes[v].id == edge.target <==> v == rows[k].1;
  }

  lemma AdjacencyLength(rows: seq<(nat, nat)>, n: nat)
    ensures |Adjacency(rows, n)| == n
  {
  }

  lemma GatheredLayout(nodes: seq<Node>, rows: seq<(nat, nat)>, ins: map<string, nat>, outs: map<string, nat>,
                       succ: map<string, seq<string>>, search: MemorySearch)
    requires DistinctIds(nodes) && Gathered(nodes, rows, ins, outs, succ)
    requires search.order == Ids(nodes) && search.succ == succ && search.g == Adjacency(rows, |nodes|)
    requires WellFormed(search.g)
    ensures search.Layout()
  {
    forall u | 0 <= u < |nodes| ensures |Neighbours(succ, nodes[u].id)| == |Successors(rows, u)| {
      assert GatheredAt(nodes, rows, ins, outs, succ, u);
    }
    forall u, k | 0 <= u < |nodes| && 0 <= k < |Successors(rows, u)|
      ensures Successors(rows, u)[k] < |nodes| && Neighbours(succ, nodes[u].id)[k] == nodes[Successors(rows, u)[k]].id
    {
      assert GatheredAt(nodes, rows, ins, outs, succ, u);
    }
  }

  lemma RowNames(nodes: seq<Node>, edges: seq<Edge>, k: nat)
    requires AllEndsKnown(nodes, edges) && k < |edges|
    ensures var row := Rows(nodes, edges)[k];
      row.0 < |nodes| && row.1 < |nodes| && nodes[row.0].id == edges[k].source && nodes[row.1].id == edges[k].target
  {
    assert EndsKnown(nodes, edges[k]);
  }

  lemma EdgeFlags(nodes: seq<Node>, edges: seq<Edge>, names: seq<seq<string>>, finalEdges: seq<Edge>)
    requires DistinctIds(nodes) && AllEndsKnown(nodes, edges) && InOrder(Ids(nodes), FinalCycles(nodes, edges))
    requires names == NamesOfAll(Ids(nodes), FinalCycles(nodes, edges)) && |finalEdges| == |edges|
    requires forall k :: 0 <= k < |edges| ==>
      (finalEdges[k] ==
        DecorateEdge(edges[k], edges[k].source in CyclicNames(names) && edges[k].target in CyclicNames(names)))
    ensures finalEdges == FinalEdges(nodes, edges)
  {
    hide FinalCycles, CyclicNames, InComps, InOrder;
    forall k | 0 <= k < |edges| ensures finalEdges[k] == FinalEdges(nodes, edges)[k] {
      RowNames(nodes, edges, k);
      var row := Rows(nodes, edges)[k];
      CyclicNameIff(nodes, FinalCycles(nodes, edges), row.0);
      CyclicNameIff(nodes, FinalCycles(nodes, edges), row.1);
    }
  }

  lemma NothingGathered(nodes: seq<Node>, rows: seq<(nat, nat)>, ins: map<string, nat>, outs: map<string, nat>,
                        succ: map<string, seq<string>>)
    requires succ == map[]
    requires forall i :: 0 <= i < |nodes| ==>
        nodes[i].id in ins && ins[nodes[i].id] == 0 && nodes[i].id in outs && outs[nodes[i].id] == 0
    ensures Gathered(nodes, rows[..0], ins, outs, succ)
  {
    assert rows[..0] == [];
    forall v: nat | v < |nodes| ensures GatheredAt(nodes, rows[..0], ins, outs, succ, v) {
    }
  }

  lemma PrefixIsNew(nodes: seq<Node>, i: nat)
    requires DistinctIds(nodes) && i < |nodes|
    ensures WithNode(nodes[..i], nodes[i]) == nodes[..i + 1]
  {
  }

  lemma PrefixEdgeIsNew(edges: seq<Edge>, k: nat)
    requires DistinctEdges(edges) && k < |edges|
    ensures WithEdge(edges[..k], edges[k]) == edges[..k + 1]
  {
    forall e | e in edges[..k] ensures !SameEdge(e, edges[k]) {
      var j :| 0 <= j < k && edges[j] == e;
    }
  }

  lemma WithEdgeKeeps(nodes: seq<Node>, edges: seq<Edge>, edge: Edge)
    requires DistinctEdges(edges) && AllEndsKnown(nodes, edges) && AllCellsKnown(nodes, edges)
    requires EndsKnown(nodes, edge) && CellKnown(nodes, edge)
    ensures DistinctEdges(WithEdge(edges, edge)) && AllEndsKnown(nodes, WithEdge(edges, edge))
    ensures AllCellsKnown(nodes, WithEdge(edges, edge))
  {
    hide EndsKnown, CellKnown;
    var after := WithEdge(edges, edge);
    forall k | 0 <= k < |after| ensures EndsKnown(nodes, after[k]) && CellKnown(nodes, after[k]) {
      assert k < |edges| ==> after[k] == edges[k];
    }
    if after != edges {
      forall i | 0 <= i < |edges| ensures !SameEdge(after[i], edge) {
        assert edges[i] in edges;
      }
    }
  }

  class AstGraph {
    var nodeOrder: seq<string>
    var nodeData: map<string, Node>
    var edgeList: seq<Edge>
    var edgeSeen: Option<set<EdgeIdentity>>
    var storage: GraphStore?

    // the graph, wherever it is kept
    ghost var nodes: seq<Node>
    ghost var edges: seq<Edge>

    ghost predicate MemoryHolds()
      reads this
    {
      && |nodeOrder| == |nodes| && (forall s :: s in nodeData <==> s in nodeOrder)
      && (forall i :: 0 <= i < |nodes| ==>
        nodeOrder[i] == nodes[i].id && nodeOrder[i] in nodeData && nodeData[nodeOrder[i]] == nodes[i])
      && edgeList == edges
      && (edgeSeen.Some? ==> edgeSeen.value == Identities(edges))
    }

    ghost function Repr(): (r: set<object>)
      reads this
    {
      if storage == null then {this} else {this, storage}
    }

    ghost predicate Valid()
      reads this, Repr()
      reads if storage == null then {} else {storage.indegree, storage.outdegree, storage.cyclic}
    {
      && DistinctIds(nodes) && DistinctEdges(edges)
      && AllEndsKnown(nodes, edges) && AllCellsKnown(nodes, edges)
      && if storage == null then MemoryHolds()
         else storage.Valid() && storage.nodes == nodes && storage.edges == edges
    }

    constructor (disk: bool, cacheRecords: nat)
      requires cacheRecords >= 1
      ensures Valid() && nodes == [] && edges == [] && fresh(Repr()) && (storage != null <==> disk)
    {
      nodeOrder, nodeData, edgeList, edgeSeen, storage := [], map[], [], Some({}), null;
      nodes, edges := [], [];
      new;
      if disk {
        storage := new GraphStore(cacheRecords);
      }
    }

    method WriteToStore(store: GraphStore, node: Node)
      requires store.Valid()
      modifies store
      ensures store.Valid() && store.edges == old(store.edges) && store.nodes == WithNode(old(store.nodes), node)
      ensures store.indegree == old(store.indegree) && store.outdegree == old(store.outdegree)
      ensures store.cyclic == old(store.cyclic)
    {
      store.NoArraysYet();
      ValidIsCoherent(store);
      hide GraphStore.Valid, GraphStore.Coherent, GraphStore.Readable, WithNode, Ordinal;
      var outcome := store.SetNode(node.id, node);
      store.NoArraysYet();
    }

    method WriteInMemory(node: Node)
      requires storage == null && MemoryHolds() && DistinctIds(nodes)
      modifies this`nodeOrder, this`nodeData, this`nodes
      ensures MemoryHolds() && nodes == WithNode(old(nodes), node)
    {
      if node.id !in nodeData {
        nodeOrder := nodeOrder + [node.id];
      }
      nodeData := nodeData[node.id := node];
      nodes := WithNode(nodes, node);
    }

    method WriteNode(node: Node)
      requires Valid()
      modifies Repr()
      ensures Valid() && storage == old(storage)
      ensures nodes == WithNode(old(nodes), node) && edges == old(edges)
    {
      WithNodeDistinct(nodes, node);
      AllKnownGrows(nodes, node, edges);
      hide MemoryHolds, AllEndsKnown, AllCellsKnown, DistinctEdges, DistinctIds, WithNode;
      if storage != null {
        WriteToStore(storage, node);
        nodes := WithNode(nodes, node);
      } else {
        WriteInMemory(node);
      }
    }

    method ReadFromStore(store: GraphStore, id: string) returns (r: Option<Node>)
      requires store.Valid()
      modifies store
      ensures store.Valid() && store.nodes == old(store.nodes) && store.edges == old(store.edges)
      ensures store.indegree == old(store.indegree) && store.outdegree == old(store.outdegree)
      ensures store.cyclic == old(store.cyclic)
      ensures r == NodeOf(store.nodes, id)
    {
      ValidIsCoherent(store);
      hide GraphStore.Coherent, GraphStore.CacheShows, GraphStore.ViewsHold, Ordinal;
      var ordinal := store.NodeOrdinal(id);
      if ordinal.None? { return None; }
      var record := store.GetNode(ordinal.value);
      return Some(record.value);
    }

    method ReadInMemory(id: string) returns (r: Option<Node>)
      requires storage == null && MemoryHolds() && DistinctIds(nodes)
      ensures r == NodeOf(nodes, id)
    {
      if id !in nodeData { return None; }
      ghost var o :| 0 <= o < |nodeOrder| && nodeOrder[o] == id;
      OrdinalOf(nodes, o);
      return Some(nodeData[id]);
    }

    /** Read a record by its identity. */
    method Read(id: string) returns (r: Option<Node>)
      requires Valid()
      modifies Repr()
      ensures Valid() && storage == old(storage) && nodes == old(nodes) && edges == old(edges)
      ensures r == NodeOf(nodes, id)
      ensures r.None? <==> forall n :: n in nodes ==> n.id != id
      ensures r.Some? ==> r.value in nodes && r.value.id == id
    {
      hide AllEndsKnown, AllCellsKnown, DistinctEdges;
      if storage != null {
        r := ReadFromStore(storage, id);
      } else {
        r := ReadInMemory(id);
      }
    }

    lemma SeenIffPresent(edge: Edge)
      ensures IdentityOf(edge) in Identities(edges) <==> exists e :: e in edges && SameEdge(e, edge)
    {
      if IdentityOf(edge) in Identities(edges) {
        var e :| e in edges && IdentityOf(e) == IdentityOf(edge);
        assert SameEdge(e, edge);
      }
      if e :| e in edges && SameEdge(e, edge) {
        assert IdentityOf(e) == IdentityOf(edge);
      }
    }

    method AppendInMemory(edge: Edge)
      requires storage == null && MemoryHolds()
      modifies this`edgeSeen, this`edgeList, this`edges
      ensures MemoryHolds() && edges == WithEdge(old(edges), edge)
    {
      if edgeSeen.None? {
        edgeSeen := Some(Identities(edgeList));
      }
      var identity := IdentityOf(edge);
      SeenIffPresent(edge);
      if identity !in edgeSeen.value {
        edgeSeen := Some(edgeSeen.value + {identity});
        edgeList := edgeList + [edge];
      }
      edges := WithEdge(edges, edge);
    }

    /** Append an edge unless it repeats one; callers have created both its ends and its cell. */
    method AddEdge(edge: Edge)
      requires Valid() && EndsKnown(nodes, edge) && CellKnown(nodes, edge)
      modifies Repr()
      ensures Valid() && storage == old(storage)
      ensures edges == WithEdge(old(edges), edge) && nodes == old(nodes)
      ensures edges ==
        if exists e :: e in old(edges) && e.source == edge.source && e.target == edge.target && e.role == edge.role
            && e.argIndex == edge.argIndex && e.ref == edge.ref
        then old(edges) else old(edges) + [edge]
    {
      WithEdgeIs(edges, edge);
      hide MemoryHolds, EndsKnown, CellKnown, SameEdge, WithEdge, DistinctEdges, AllEndsKnown, AllCellsKnown;
      WithEdgeKeeps(nodes, edges, edge);
      if storage != null {
        var outcome := StoreEdge(storage, edge);
        edges := WithEdge(edges, edge);
      } else {
        AppendInMemory(edge);
      }
    }

    method StoreEdge(store: GraphStore, edge: Edge) returns (outcome: Outcome)
      requires store.Valid() && EndsKnown(store.nodes, edge) && CellKnown(store.nodes, edge)
      modifies store
      ensures store.Valid() && store.nodes == old(store.nodes) && store.edges == WithEdge(old(store.edges), edge)
      ensures store.indegree == old(store.indegree) && store.outdegree == old(store.outdegree)
      ensures store.cyclic == old(store.cyclic)
    {
      ValidIsCoherent(store);
      hide GraphStore.Valid, GraphStore.Coherent, GraphStore.Readable;
      outcome := store.AddEdge(edge);
    }

    method CopyNodes(store: GraphStore)
      requires Valid() && storage == null && store.Valid() && store.nodes == [] && store.edges == []
      modifies store
      ensures store.Valid() && store.nodes == nodes && store.edges == []
      ensures store.indegree == old(store.indegree) && store.outdegree == old(store.outdegree)
      ensures store.cyclic == old(store.cyclic)
    {
      hide GraphStore.Valid, AllEndsKnown, AllCellsKnown, DistinctEdges;
      for i := 0 to |nodeOrder|
        invariant store.Valid() && store.nodes == nodes[..i] && store.edges == []
        invariant store.indegree == old(store.indegree) && store.outdegree == old(store.outdegree)
        invariant store.cyclic == old(store.cyclic)
      {
        PrefixIsNew(nodes, i);
        WriteToStore(store, nodeData[nodeOrder[i]]);
      }
      assert nodes[..|nodes|] == nodes;
    }

    method CopyEdges(store: GraphStore)
      requires Valid() && storage == null && store.Valid() && store.nodes == nodes && store.edges == []
      modifies store
      ensures store.Valid() && store.nodes == nodes && store.edges == edges
      ensures store.indegree == old(store.indegree) && store.outdegree == old(store.outdegree)
      ensures store.cyclic == old(store.cyclic)
    {
      hide GraphStore.Valid, DistinctIds;
      for k := 0 to |edgeList|
        invariant store.Valid() && store.nodes == nodes && store.edges == edges[..k]
        invariant store.indegree == old(store.indegree) && store.outdegree == old(store.outdegree)
        invariant store.cyclic == old(store.cyclic)
      {
        assert EndsKnown(nodes, edges[k]) && CellKnown(nodes, edges[k]);
        PrefixEdgeIsNew(edges, k);
        var outcome := StoreEdge(store, edgeList[k]);
      }
      assert edges[..|edges|] == edges;
    }

    /** Between two formulas: copy everything to a fresh store once the edge list is long. */
    method SpillIfNeeded(auto: bool, threshold: nat, cacheRecords: nat)
      requires Valid() && cacheRecords >= 1
      modifies Repr()
      ensures Valid() && fresh(Repr() - old(Repr()))
      ensures nodes == old(nodes) && edges == old(edges)
      ensures storage != null <==> old(storage) != null || (auto && |edges| >= threshold)
    {
      if !auto || storage != null || |edgeList| < threshold { return; }
      hide GraphStore.Valid, AllEndsKnown, AllCellsKnown, DistinctEdges, DistinctIds;
      var store := new GraphStore(cacheRecords);
      CopyNodes(store);
      CopyEdges(store);
      storage := store;
      edgeSeen := None;
    }

    // ---------- the final pass ----------

    lemma ListsAgree()
      requires MemoryHolds()
      ensures edgeList == edges && nodeOrder == Ids(nodes)
      ensures forall i :: 0 <= i < |nodes| ==> nodes[i].id in nodeOrder
    {
    }

    method GatherEdge(ghost rows: seq<(nat, nat)>, ghost k: nat, edge: Edge,
                      ins0: map<string, nat>, outs0: map<string, nat>, succ0: map<string, seq<string>>)
      returns (ins: map<string, nat>, outs: map<string, nat>, succ: map<string, seq<string>>)
      requires DistinctIds(nodes) && k < |rows| && rows[k].0 < |nodes| && rows[k].1 < |nodes|
      requires edge.source == nodes[rows[k].0].id && edge.target == nodes[rows[k].1].id
      requires Gathered(nodes, rows[..k], ins0, outs0, succ0)
      ensures Gathered(nodes, rows[..k + 1], ins, outs, succ)
    {
      ghost var before, after := rows[..k], rows[..k + 1];
      assert GatheredAt(nodes, before, ins0, outs0, succ0, rows[k].0);
      assert GatheredAt(nodes, before, ins0, outs0, succ0, rows[k].1);
      ins := ins0[edge.target := ins0[edge.target] + 1];
      outs := outs0[edge.source := outs0[edge.source] + 1];
      succ := succ0[edge.source := Neighbours(succ0, edge.source) + [edge.target]];
      hide GatheredAt;
      forall v: nat | v < |nodes|
        ensures GatheredAt(nodes, after, ins, outs, succ, v)
      {
        assert GatheredAt(nodes, before, ins0, outs0, succ0, v);
        GatherStep(nodes, rows, k, edge, ins0, outs0, succ0, v);
      }
    }

    /** Degrees and successor lists, gathered edge by edge under the node identities. */
    method GatherEdges() returns (ins: map<string, nat>, outs: map<string, nat>, succ: map<string, seq<string>>)
      requires MemoryHolds() && DistinctIds(nodes) && AllEndsKnown(nodes, edges)
      ensures Gathered(nodes, Rows(nodes, edges), ins, outs, succ)
    {
      hide MemoryHolds, AllEndsKnown, DistinctIds, Gathered;
      ghost var rows := Rows(nodes, edges);
      ListsAgree();
      ins := map s | s in nodeOrder :: 0;
      outs := map s | s in nodeOrder :: 0;
      succ := map[];
      NothingGathered(nodes, rows, ins, outs, succ);
      for k := 0 to |edgeList|
        invariant Gathered(nodes, rows[..k], ins, outs, succ)
      {
        RowNames(nodes, edges, k);
        ins, outs, succ := GatherEdge(rows, k, edgeList[k], ins, outs, succ);
      }
      assert rows[..|rows|] == rows;
    }

    lemma HeldAt(i: nat)
      requires MemoryHolds() && i < |nodeOrder|
      ensures i < |nodes| && nodeOrder[i] == nodes[i].id && nodeOrder[i] in nodeData
      ensures nodeData[nodeOrder[i]] == nodes[i]
    {
    }

    method WriteFlags(ins: map<string, nat>, outs: map<string, nat>, ghost succ: map<string, seq<string>>,
                      cyclic: set<string>)
      returns (finalNodes: seq<Node>)
      requires MemoryHolds() && FlagInputs(nodes, edges, ins, outs, succ, cyclic)
      ensures AllEndsKnown(nodes, edges) && finalNodes == FinalNodes(nodes, edges)
    {
      ListsAgree();
      FinalSize(nodes, edges, ins, outs, succ, cyclic);
      ghost var final := FinalNodes(nodes, edges);
      hide *;
      finalNodes := [];
      for i := 0 to |nodeOrder|
        invariant finalNodes == final[..i]
      {
        var id := nodeOrder[i];
        HeldAt(i);
        FinalAt(nodes, edges, ins, outs, succ, cyclic, i);
        finalNodes := finalNodes + [DecorateNode(nodeData[id], ins[id], outs[id], id in cyclic)];
      }
    }

    /** `_postprocess` on dictionaries: the nodes and edges as they are written out, and the cycles. */
    method PostprocessInMemory() returns (finalNodes: seq<Node>, finalEdges: seq<Edge>, names: seq<seq<string>>)
      requires MemoryHolds() && DistinctIds(nodes) && AllEndsKnown(nodes, edges)
      ensures InOrder(Ids(nodes), FinalCycles(nodes, edges))
      ensures names == NamesOfAll(Ids(nodes), FinalCycles(nodes, edges))
      ensures finalNodes == FinalNodes(nodes, edges) && finalEdges == FinalEdges(nodes, edges)
    {
      hide MemoryHolds, AllEndsKnown, DistinctIds, Gathered, FinalNodes, FinalEdges, FinalCycles, Cycles, InComps;
      hide InOrder;
      hide MemorySearch.HoldsMarks, MemorySearch.HoldsReport, MemorySearch.Layout, Adjacency, WellFormed, Rows;
      hide CyclicNames;
      ghost var rows := Rows(nodes, edges);
      var ins, outs, succ := GatherEdges();
      ListsAgree();
      FinalCyclesAre(nodes, edges);
      AdjacencyLength(rows, |nodes|);
      var search := new MemorySearch(nodeOrder, succ, Adjacency(rows, |nodes|));
      GatheredLayout(nodes, rows, ins, outs, succ, search);
      search.Run();
      names := search.cycles;
      var cyclic := CyclicNames(names);
      finalNodes := WriteFlags(ins, outs, succ, cyclic);
      finalEdges := seq(|edgeList|, k requires 0 <= k < |edgeList| reads this =>
        DecorateEdge(edgeList[k], edgeList[k].source in cyclic && edgeList[k].target in cyclic));
      EdgeFlags(nodes, edges, names, finalEdges);
    }

    method ReadCycles(store: GraphStore) returns (names: seq<seq<string>>)
      requires store.Coherent()
      ensures InOrder(Ids(store.nodes), store.cycles) && names == NamesOfAll(Ids(store.nodes), store.cycles)
    {
      store.CoherentParts();
      hide GraphStore.Coherent, InOrder;
      names := [];
      for c := 0 to |store.cycles|
        invariant |names| == c && forall j :: 0 <= j < c ==> names[j] == NamesOfAll(Ids(store.nodes), store.cycles)[j]
      {
        var cycle := store.Cycle(c);
        names := names + [cycle.value];
      }
    }

    /** What a reader of the store sees, record by record. */
    method ReadBack(store: GraphStore) returns (finalNodes: seq<Node>, finalEdges: seq<Edge>, names: seq<seq<string>>)
      requires store.Processed()
      modifies store`cache, store`nodeRows, store`dirty
      ensures store.nodes == old(store.nodes) && store.edges == old(store.edges)
      ensures finalNodes == store.nodeViews && finalEdges == store.edgeViews
      ensures InOrder(Ids(store.nodes), store.cycles) && names == NamesOfAll(Ids(store.nodes), store.cycles)
    {
      hide GraphStore.TablesHold, GraphStore.CacheHolds, GraphStore.IdsHold, GraphStore.ArraysHold;
      hide GraphStore.ViewsHold;
      hide GraphStore.CacheShows, FinalNodes, FinalEdges, FinalCycles, InComps, Cycles, InOrder, OrderedDict.Put;
      hide OrderedDict.Trimmed;
      store.ViewLengths();
      finalNodes, finalEdges := [], [];
      names := ReadCycles(store);
      var nodeCount, edgeCount := |store.nodeRows|, |store.edgeRows|;
      for i := 0 to nodeCount
        invariant store.Readable() && finalNodes == store.nodeViews[..i]
      {
        var node := store.GetNode(i);
        finalNodes := finalNodes + [node.value];
      }
      for k := 0 to edgeCount
        invariant store.Readable() && finalEdges == store.edgeViews[..k]
      {
        var edge := store.GetEdge(k);
        finalEdges := finalEdges + [edge.value];
      }
    }

    /** The final pass and everything read out afterwards: a function of the nodes and edges alone,
        whether they lie in memory or on disk. */
    method Finish() returns (ok: bool, finalNodes: seq<Node>, finalEdges: seq<Edge>, names: seq<seq<string>>)
      requires Valid()
      modifies Repr()
      ensures nodes == old(nodes) && edges == old(edges)
      ensures ok <==> old(storage) == null || |nodes| < 0x1_0000_0000
      ensures ok ==>
        AllEndsKnown(nodes, edges) && finalNodes == FinalNodes(nodes, edges) && finalEdges == FinalEdges(nodes, edges)
      ensures ok ==>
        InOrder(Ids(nodes), FinalCycles(nodes, edges)) && names == NamesOfAll(Ids(nodes), FinalCycles(nodes, edges))
    {
      hide MemoryHolds, FinalNodes, FinalEdges, FinalCycles, InOrder;
      if storage == null {
        finalNodes, finalEdges, names := PostprocessInMemory();
        return true, finalNodes, finalEdges, names;
      }
      ValidIsCoherent(storage);
      storage.NoArraysYet();
      var outcome := storage.Postprocess();
      if outcome != Done { return false, [], [], []; }
      finalNodes, finalEdges, names := ReadBack(storage);
      return true, finalNodes, finalEdges, names;
    }
  }

  // ---------- whole runs ----------

  /** One construction step. Between two formulas the graph may move to disk. */
  datatype BuildStep = Write(node: Node) | Link(edge: Edge) | Ask(id: string) | Between(auto: bool, threshold: nat)

  /** The step that comes after so many others, by what the records read so far were. */
  type Plan = (nat, seq<Option<Node>>) -> BuildStep

  datatype Built = Built(nodes: seq<Node>, edges: seq<Edge>, answers: seq<Option<Node>>)

  /** What a run builds and reads, storage left out of account. */
  function Spelled(plan: Plan, length: nat): (r: Built) {
    if length == 0 then Built([], [], [])
    else
      var before := Spelled(plan, length - 1);
      match plan(length - 1, before.answers)
      case Write(node) => before.(nodes := WithNode(before.nodes, node))
      case Link(edge) => before.(edges := WithEdge(before.edges, edge))
      case Ask(id) => before.(answers := before.answers + [NodeOf(before.nodes, id)])
      case Between(_, _) => before
  }

  ghost predicate InTurn(nodes: seq<Node>, step: BuildStep) {
    step.Link? ==> EndsKnown(nodes, step.edge) && CellKnown(nodes, step.edge)
  }

  /** Every edge is added after its ends and the cell it belongs to. */
  ghost predicate Ordered(plan: Plan, length: nat) {
    forall k :: 0 <= k < length ==> InTurn(Spelled(plan, k).nodes, plan(k, Spelled(plan, k).answers))
  }

  /** The graph is on disk, from the start or since some boundary with enough edges before it. */
  predicate OnDisk(disk: bool, plan: Plan, length: nat) {
    if length == 0 then disk
    else
      var before := Spelled(plan, length - 1);
      var step := plan(length - 1, before.answers);
      OnDisk(disk, plan, length - 1) || (step.Between? && step.auto && |before.edges| >= step.threshold)
  }

  method TakeStep(graph: AstGraph, cacheRecords: nat, step: BuildStep, answers: seq<Option<Node>>)
    returns (after: seq<Option<Node>>)
    requires graph.Valid() && cacheRecords >= 1 && InTurn(graph.nodes, step)
    modifies graph.Repr()
    ensures graph.Valid() && fresh(graph.Repr() - old(graph.Repr()))
    ensures graph.nodes == if step.Write? then WithNode(old(graph.nodes), step.node) else old(graph.nodes)
    ensures graph.edges == if step.Link? then WithEdge(old(graph.edges), step.edge) else old(graph.edges)
    ensures after == if step.Ask? then answers + [NodeOf(old(graph.nodes), step.id)] else answers
    ensures graph.storage != null
        <==> old(graph.storage) != null || (step.Between? && step.auto && |old(graph.edges)| >= step.threshold)
  {
    hide AstGraph.Valid, EndsKnown, CellKnown, WithNode, WithEdge, NodeOf;
    after := answers;
    match step {
      case Write(node) => graph.WriteNode(node);
      case Link(edge) => graph.AddEdge(edge);
      case Ask(id) =>
        var answer := graph.Read(id);
        after := answers + [answer];
      case Between(auto, threshold) => graph.SpillIfNeeded(auto, threshold, cacheRecords);
    }
  }

  /** Any run, kept in memory, on disk, or spilling at any of its formula boundaries, with any cache
      size, every step free to depend on all records read before: what is read, and the node order,
      edge list, degrees, flags and cycle lists read out at the end, are those of the one graph the
      run spells out. It fails only on disk, and there exactly when the nodes outnumber 32-bit ordinals. */
  method Build(disk: bool, cacheRecords: nat, plan: Plan, length: nat)
    returns (ok: bool, answers: seq<Option<Node>>, finalNodes: seq<Node>, finalEdges: seq<Edge>,
      names: seq<seq<string>>)
    requires cacheRecords >= 1 && Ordered(plan, length)
    ensures answers == Spelled(plan, length).answers
    ensures ok <==> !OnDisk(disk, plan, length) || |Spelled(plan, length).nodes| < 0x1_0000_0000
    ensures ok ==> var b := Spelled(plan, length);
      && AllEndsKnown(b.nodes, b.edges)
      && finalNodes == FinalNodes(b.nodes, b.edges) && finalEdges == FinalEdges(b.nodes, b.edges)
      && InOrder(Ids(b.nodes), FinalCycles(b.nodes, b.edges))
      && names == NamesOfAll(Ids(b.nodes), FinalCycles(b.nodes, b.edges))
  {
    hide FinalNodes, FinalEdges, FinalCycles, InOrder, AllEndsKnown, InTurn, WithNode, WithEdge, NodeOf, AstGraph.Valid;
    var graph := new AstGraph(disk, cacheRecords);
    answers := [];
    for k := 0 to length
      invariant graph.Valid() && fresh(graph.Repr()) && (graph.storage != null <==> OnDisk(disk, plan, k))
      invariant Built(graph.nodes, graph.edges, answers) == Spelled(plan, k)
    {
      assert InTurn(Spelled(plan, k).nodes, plan(k, Spelled(plan, k).answers));
      answers := TakeStep(graph, cacheRecords, plan(k, answers), answers);
    }
    ok, finalNodes, finalEdges, names := graph.Finish();
  }
}
