/** Where reads of the store go wrong after the final pass: on any store with room for one cached record,
    and on one small enough to write down. */
module GraphStoreLimits {
  import opened Options
  import opened Digraphs
  import opened GraphRecords
  import opened OrderedDicts
  import opened AdjacencyArrays
  import opened TarjanMachine
  import opened TarjanComponents
  import opened GraphMeaning
  import opened GraphStores

  // ---------- on any store ----------

  /** A cache of one record holds nothing but the record it is known to hold. */
  lemma OnlyRecord(store: GraphStore, key: Key)
    requires store.Coherent() && store.capacity == 1 && key in store.cache.data
    ensures forall k :: k in store.cache.data ==> k == key
  {
    hide GraphStore.TablesHold, GraphStore.IdsHold, GraphStore.ArraysHold, GraphStore.Fits, GraphStore.Awaits, InOrder;
    forall k | k in store.cache.data ensures k == key {
      var i :| 0 <= i < |store.cache.order| && store.cache.order[i] == k;
      var j :| 0 <= j < |store.cache.order| && store.cache.order[j] == key;
    }
  }

  lemma JustRead(store: GraphStore, was: OrderedDict<Key, Record>, key: Key, value: Record)
    requires was.Valid() && store.capacity >= 1 && store.cache == was.Put(key, value).Trimmed(store.capacity)
    ensures key in store.cache.data && store.cache.data[key] == value
  {
    PutTrimmed(was, key, value, store.capacity);
  }

  lemma CacheIsValid(store: GraphStore)
    requires store.Coherent()
    ensures store.cache.Valid() && store.CacheHolds(None) && store.ArraysHold() && store.capacity >= 1
    ensures |store.nodes| == |store.nodeRows| && |store.edges| == |store.edgeRows|
  {
  }

  /** Read a node and find it alone in the cache. */
  method ReadAlone(store: GraphStore, ordinal: nat) returns (r: Read<Node>)
    requires store.Coherent() && store.capacity == 1
    modifies store`cache, store`nodeRows, store`dirty
    ensures store.Coherent() && r == old(store.ReadNode(ordinal))
    ensures r.Got? ==> forall k :: k in store.cache.data ==> k == NodeKey(ordinal)
    ensures old(store.Readable()) ==> store.Readable()
  {
    CacheIsValid(store);
    hide *;
    r := store.GetNode(ordinal);
    if r.Got? {
      JustRead(store, old(store.cache), NodeKey(ordinal), NodeRecord(r.value));
      OnlyRecord(store, NodeKey(ordinal));
    }
  }

  lemma FullArrays(store: GraphStore)
    requires store.Readable() && store.cyclic != null
    ensures store.cyclic.Length == |store.nodes|
  {
  }

  lemma FreshInRange(store: GraphStore, ordinal: nat)
    requires store.ArraysHold() && store.cyclic != null && ordinal < |store.nodes|
    ensures store.FreshNode(ordinal).Some? <==> ordinal < store.cyclic.Length
  {
  }

  /** A node inserted after the final pass is accepted, and is lost once another record has taken its
      place in the cache. */
  method InsertThenEvict(store: GraphStore, value: Node)
    returns (inserted: Outcome, cached: Read<Node>, other: Read<Node>, evicted: Read<Node>)
    requires store.Readable() && store.cyclic != null && store.capacity == 1 && |store.nodes| > 0
    requires Ordinal(store.nodes, value.id) == |store.nodes|
    modifies store, store.indegree, store.outdegree, store.cyclic
    ensures inserted == Done && store.nodes == old(store.nodes) + [value]
    ensures cached == Got(value) && other.Got? && evicted == OutOfRange
  {
    hide GraphStore.Coherent, GraphStore.CacheHolds, GraphStore.ArraysHold, GraphStore.CacheShows, GraphStore.ViewsHold;
    CacheIsValid(store);
    FullArrays(store);
    var ordinal := |store.nodeRows|;
    inserted := store.SetNode(value.id, value);
    OnlyRecord(store, NodeKey(ordinal));
    CacheIsValid(store);
    FreshInRange(store, 0);
    cached := ReadAlone(store, ordinal);
    CacheIsValid(store);
    FreshInRange(store, 0);
    other := ReadAlone(store, 0);
    CacheIsValid(store);
    FreshInRange(store, ordinal);
    evicted := ReadAlone(store, ordinal);
  }

  /** Read an edge and find it alone in the cache. */
  method ReadEdgeAlone(store: GraphStore, ordinal: nat) returns (r: Read<Edge>)
    requires store.Coherent() && store.capacity == 1
    modifies store`cache, store`nodeRows, store`dirty
    ensures store.Coherent() && |store.edges| == |store.edgeRows| && r == old(store.ReadEdge(ordinal))
    ensures r.Got? ==> forall k :: k in store.cache.data ==> k == EdgeKey(ordinal)
    ensures old(store.Readable()) ==> store.Readable()
  {
    CacheIsValid(store);
    hide *;
    r := store.GetEdge(ordinal);
    if r.Got? {
      JustRead(store, old(store.cache), EdgeKey(ordinal), EdgeRecord(r.value));
      OnlyRecord(store, EdgeKey(ordinal));
    }
  }

  /** The row of an edge holds the ordinals of its ends. */
  lemma RowEnds(store: GraphStore, k: nat)
    requires store.Coherent() && k < |store.edges|
    ensures |store.edgeRows| == |store.edges|
    ensures store.edgeRows[k].source == Ordinal(store.nodes, store.edges[k].source) < |store.nodes|
    ensures store.edgeRows[k].target == Ordinal(store.nodes, store.edges[k].target) < |store.nodes|
    ensures EndsKnown(store.nodes, store.edges[k])
  {
    hide GraphStore.CacheHolds, GraphStore.IdsHold, GraphStore.ArraysHold, InOrder, DistinctEdges;
    assert store.RowHolds(store.edgeRows[k], store.edges[k]);
    OrdinalOf(store.nodes, store.edgeRows[k].source);
    OrdinalOf(store.nodes, store.edgeRows[k].target);
  }

  lemma UncachedEdge(store: GraphStore, k: nat)
    requires store.CacheHolds(None) && k < |store.edges| == |store.edgeRows| && store.cyclic != null
    requires EdgeKey(k) !in store.cache.data
    requires store.edgeRows[k].source < store.cyclic.Length && store.edgeRows[k].target < store.cyclic.Length
    ensures store.ReadEdge(k)
         == Got(DecorateEdge(store.edges[k],
           store.cyclic[store.edgeRows[k].source] && store.cyclic[store.edgeRows[k].target]))
  {
    hide GraphStore.CacheHolds, DecorateEdge;
  }

  lemma ShownEdge(store: GraphStore, k: nat)
    requires store.Readable() && store.cyclic != null && k < |store.edges| == |store.edgeRows|
    requires store.edgeRows[k].source < store.cyclic.Length && store.edgeRows[k].target < store.cyclic.Length
    ensures store.ReadEdge(k)
         == Got(DecorateEdge(store.edges[k],
           store.cyclic[store.edgeRows[k].source] && store.cyclic[store.edgeRows[k].target]))
  {
    store.ReadableEdge(k);
    hide GraphStore.Coherent, GraphStore.CacheShows, GraphStore.ReadEdge, DecorateEdge, NodesShown;
    assert EdgeShown(store.edges[k], store.edgeViews[k], store.edgeRows[k], store.cyclic[..]);
  }

  lemma PutSucceeds(store: GraphStore, o: nat, value: Node)
    requires store.Readable() && store.cyclic != null && o < |store.nodes| && store.nodes[o].id == value.id
    requires FlagsOutcome(value.fields, o, store.cyclic.Length) == Done
    ensures store.PutOutcome(o, value) == Done
  {
    store.ReadableNode(o);
    store.FitsIfCached(NodeKey(o));
    hide GraphStore.CacheShows, GraphStore.TablesHold, GraphStore.CacheHolds, FlagsOutcome, EdgesShown;
  }

  lemma PlainIsWritable(value: Node, o: nat, length: nat)
    requires Plain(value) && o < length
    ensures FlagsOutcome(value.fields, o, length) == Done && "in_cycle" in value.fields
  {
    hide Carries;
  }

  lemma EndsAreFlagged(store: GraphStore, k: nat)
    requires store.Coherent() && store.cyclic != null && k < |store.edges| && store.cyclic.Length == |store.nodes|
    ensures |store.edgeRows| == |store.edges|
    ensures var row := store.edgeRows[k];
      && row.source < store.cyclic.Length && row.target < store.cyclic.Length
      && (store.EndsFlag(store.edges[k]) <==> store.cyclic[row.source] && store.cyclic[row.target])
  {
    RowEnds(store, k);
    hide GraphStore.Coherent, Ordinal;
  }

  lemma ReadableIsCoherent(store: GraphStore)
    requires store.Readable()
    ensures store.Coherent()
  {
  }

  method PutAlone(store: GraphStore, o: nat, value: Node) returns (put: Outcome)
    requires store.Readable() && store.capacity == 1 && store.cyclic != null && store.cyclic.Length == |store.nodes|
    requires o < |store.nodes| && store.nodes[o].id == value.id && Plain(value)
    modifies store, store.indegree, store.outdegree, store.cyclic
    ensures store.Coherent() && put == Done && "in_cycle" in value.fields
    ensures store.edges == old(store.edges) && store.edgeRows == old(store.edgeRows)
    ensures store.cyclic == old(store.cyclic)
    ensures store.cyclic[..] == old(store.cyclic[..])[o := Truthy(value.fields["in_cycle"])]
    ensures forall k :: k in store.cache.data ==> k == NodeKey(o)
  {
    ReadableIsCoherent(store);
    PlainIsWritable(value, o, store.cyclic.Length);
    PutSucceeds(store, o, value);
    hide *;
    put := store.PutNode(o, value);
    OnlyRecord(store, NodeKey(o));
  }

  lemma SourceOf(store: GraphStore, k: nat)
    requires store.Coherent() && k < |store.edges|
    ensures |store.edgeRows| == |store.edges| && store.edgeRows[k].source < |store.nodes|
    ensures store.nodes[store.edgeRows[k].source].id == store.edges[k].source
  {
    hide GraphStore.CacheHolds, GraphStore.IdsHold, GraphStore.ArraysHold, InOrder, DistinctEdges, DistinctIds;
    assert store.RowHolds(store.edgeRows[k], store.edges[k]);
  }

  /** Clearing the flag of a node changes what is read of an edge that nobody wrote to. */
  method ClearFlagThenRead(store: GraphStore, k: nat, value: Node)
    returns (before: Read<Edge>, put: Outcome, after: Read<Edge>)
    requires store.Readable() && store.capacity == 1 && k < |store.edges| && store.EndsFlag(store.edges[k])
    requires value.id == store.edges[k].source && Plain(value) && value.fields["in_cycle"] == Flag(false)
    modifies store, store.indegree, store.outdegree, store.cyclic
    ensures put == Done && store.edges == old(store.edges)
    ensures before == Got(DecorateEdge(store.edges[k], true)) && after == Got(DecorateEdge(store.edges[k], false))
  {
    assert store.cyclic != null;
    hide Plain, DecorateEdge, GraphStore.Coherent, GraphStore.Readable, GraphStore.EndsFlag, GraphStore.ReadEdge;
    hide GraphStore.ReadNode;
    hide GraphStore.CacheHolds;
    FullArrays(store);
    ReadableIsCoherent(store);
    EndsAreFlagged(store, k);
    CacheIsValid(store);
    ShownEdge(store, k);
    before := ReadEdgeAlone(store, k);
    SourceOf(store, k);
    var o := store.edgeRows[k].source;
    put := PutAlone(store, o, value);
    CacheIsValid(store);
    UncachedEdge(store, k);
    after := ReadEdgeAlone(store, k);
  }

  lemma CachedEdge(store: GraphStore, k: nat, edge: Edge)
    requires store.CacheHolds(None) && |store.edges| == |store.edgeRows|
    requires EdgeKey(k) in store.cache.data && store.cache.data[EdgeKey(k)] == EdgeRecord(edge)
    ensures store.ReadEdge(k) == Got(edge)
  {
  }

  lemma FoundMeans<T>(record: Option<T>)
    ensures record.Some? ==> Fetched(record) == Got(record.value)
  {
  }

  lemma UncachedNode(store: GraphStore, o: nat)
    requires store.CacheHolds(None) && store.ArraysHold() && o < |store.nodes| && NodeKey(o) !in store.cache.data
    ensures store.ReadNode(o) == Fetched(store.FreshNode(o))
  {
  }

  /** The flag of an edge changes nothing about its ends. */
  lemma SameEnds(store: GraphStore, edge: Edge, flag: bool)
    ensures var value := DecorateEdge(edge, flag);
      && SameEdge(edge, value) && value.cell == edge.cell
        && (EndsKnown(store.nodes, edge) <==> EndsKnown(store.nodes, value))
      && (store.EndsFlag(value) <==> store.EndsFlag(edge))
  {
  }

  lemma Overwritten(edge: Edge, flag: bool)
    ensures DecorateEdge(DecorateEdge(edge, !flag), flag) == DecorateEdge(edge, flag) != DecorateEdge(edge, !flag)
  {
    FlagsDiffer(edge, flag, !flag);
  }

  lemma OnlyItself(store: GraphStore, k: nat, value: Edge)
    requires store.Coherent() && k < |store.edges| && SameEdge(store.edges[k], value)
    ensures !RepeatsOther(store.edges, k, value)
  {
  }

  method TurnFlag(store: GraphStore, k: nat, flag: bool) returns (put: Outcome)
    requires store.Coherent() && store.capacity == 1 && k < |store.edges|
    requires store.edges[k].cell == "" || Known(store.nodes, store.edges[k].cell)
    modifies store`cache, store`nodeRows, store`dirty, store`ids, store`edgeRows, store`edges, store`edgeViews
    ensures store.Coherent() && put == Done
    ensures store.edges == old(store.edges)[k := DecorateEdge(old(store.edges)[k], flag)]
    ensures EdgeKey(k) in store.cache.data && store.cache.data[EdgeKey(k)] == EdgeRecord(store.edges[k])
    ensures forall key :: key in store.cache.data ==> key == EdgeKey(k)
  {
    RowEnds(store, k);
    CacheIsValid(store);
    var edge := store.LoadEdge(k);
    var value := DecorateEdge(edge, flag);
    OnlyItself(store, k, value);
    SameEnds(store, edge, flag);
    hide *;
    put := store.PutEdge(k, value);
    JustRead(store, old(store.cache), EdgeKey(k), EdgeRecord(value));
    OnlyRecord(store, EdgeKey(k));
  }

  /** Writing the other flag to an edge shows it until another record has been read. */
  method TurnFlagThenEvict(store: GraphStore, k: nat, other: nat)
    returns (put: Outcome, cached: Read<Edge>, between: Read<Node>, after: Read<Edge>)
    requires store.Readable() && store.cyclic != null && store.capacity == 1 && k < |store.edges|
    requires other < |store.nodes|
    requires store.edges[k].cell == "" || Known(store.nodes, store.edges[k].cell)
    modifies store
    ensures var flag := old(store.EndsFlag(store.edges[k]));
      && put == Done && cached == Got(DecorateEdge(old(store.edges)[k], !flag)) && between.Got?
      && after == Got(DecorateEdge(old(store.edges)[k], flag)) && after != cached
  {
    hide *;
    ghost var edge := store.edges[k];
    FullArrays(store);
    ReadableIsCoherent(store);
    EndsAreFlagged(store, k);
    var row := store.edgeRows[k];
    var flag := store.cyclic[row.source] && store.cyclic[row.target];
    put := TurnFlag(store, k, !flag);
    CacheIsValid(store);
    SameEnds(store, edge, !flag);
    CachedEdge(store, k, store.edges[k]);
    cached := ReadEdgeAlone(store, k);
    CacheIsValid(store);
    FreshInRange(store, other);
    UncachedNode(store, other);
    FoundMeans(store.FreshNode(other));
    between := ReadAlone(store, other);
    CacheIsValid(store);
    EndsAreFlagged(store, k);
    UncachedEdge(store, k);
    after := ReadEdgeAlone(store, k);
    Overwritten(edge, flag);
  }

  // ---------- on one store ----------

  function NodeA(): (r: Node) { Node("a", map[]) }

  function NodeB(): (r: Node) { Node("b", map[]) }

  function NodeC(): (r: Node) { Node("c", map[]) }

  /** The only edge, from the first node to itself. */
  function Loop(): (r: Edge) { Edge("a", "a", "operand", 0, "", "", map[]) }

  /** The first node with its degrees and without its flag. */
  function Cleared(): (r: Node) {
    Node("a", map["in_degree" := Number(1), "out_degree" := Number(1), "in_cycle" := Flag(false)])
  }

  lemma LoopIsCyclic(nodes: seq<Node>, edges: seq<Edge>)
    requires nodes == [NodeA(), NodeB()] && edges == [Loop()]
    ensures AllEndsKnown(nodes, edges) && InComps(FinalCycles(nodes, edges), 0)
  {
    assert EndsKnown(nodes, edges[0]) by { assert nodes[0].id == "a"; }
    var rows := Rows(nodes, edges);
    assert rows == [(0, 0)];
    FlagMeansCycle(nodes, edges, 0);
    assert (0, 0) in Drawn(nodes, edges);
    ReachesEdge(Drawn(nodes, edges), 0, 0);
  }

  lemma TwoNodesAre()
    ensures NodeA().id == "a" && NodeB().id == "b" && Loop().cell == ""
    ensures WithNode([], NodeA()) == [NodeA()] && WithNode([NodeA()], NodeB()) == [NodeA(), NodeB()]
    ensures EndsKnown([NodeA(), NodeB()], Loop()) && WithEdge([], Loop()) == [Loop()]
  {
    assert [NodeA(), NodeB()][0].id == "a";
  }

  lemma ValidIsCoherent(store: GraphStore)
    requires store.Valid()
    ensures store.Coherent() && store.cyclic == null && store.indegree == null && store.outdegree == null
  {
    store.NoArraysYet();
  }

  lemma ProcessedHasFlags(store: GraphStore)
    requires store.Processed()
    ensures store.cyclic != null
  {
  }

  /** Two nodes and the loop, after the final pass, with room for one cached record. */
  method TwoNodes() returns (store: GraphStore)
    ensures fresh(store) && store.Processed() && store.capacity == 1 && store.cyclic != null
    ensures fresh(store.indegree) && fresh(store.outdegree) && fresh(store.cyclic)
    ensures store.nodes == [NodeA(), NodeB()] && store.edges == [Loop()]
  {
    hide *;
    TwoNodesAre();
    store := new GraphStore(1);
    ValidIsCoherent(store);
    var a := store.SetNode("a", NodeA());
    ValidIsCoherent(store);
    var b := store.SetNode("b", NodeB());
    ValidIsCoherent(store);
    var loop := store.AddEdge(Loop());
    ValidIsCoherent(store);
    var pass := store.Postprocess();
    ProcessedHasFlags(store);
  }

  lemma LoopIsFlagged(store: GraphStore)
    requires store.Processed() && store.nodes == [NodeA(), NodeB()] && store.edges == [Loop()]
    ensures store.EndsFlag(Loop()) && store.Readable()
  {
    LoopIsCyclic(store.nodes, store.edges);
    hide GraphStore.Readable, FinalCycles, FinalNodes, FinalEdges, InComps;
    assert Ordinal(store.nodes, "a") == 0;
  }

  /** All three: a node inserted and lost, an edge that loses its flag unwritten, and an edge that gets
      back the flag it was overwritten with. */
  method ReadsGoWrong()
    returns (lost: Read<Node>, before: Read<Edge>, after: Read<Edge>, written: Read<Edge>, restored: Read<Edge>)
    ensures lost == OutOfRange
    ensures before == Got(DecorateEdge(Loop(), true)) && after == Got(DecorateEdge(Loop(), false))
    ensures written == Got(DecorateEdge(Loop(), false)) && restored == Got(DecorateEdge(Loop(), true))
  {
    hide GraphStore.Processed, GraphStore.Readable, GraphStore.EndsFlag, DecorateEdge;
    var store := TwoNodes();
    LoopIsFlagged(store);
    var inserted, cached, other, evicted := InsertThenEvict(store, NodeC());
    lost := evicted;
    store := TwoNodes();
    LoopIsFlagged(store);
    var put;
    before, put, after := ClearFlagThenRead(store, 0, Cleared());
    store := TwoNodes();
    LoopIsFlagged(store);
    var between;
    put, written, between, restored := TurnFlagThenEvict(store, 0, 1);
  }
}
