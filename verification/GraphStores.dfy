/** The disk-backed store: two tables behind one write-back cache that evicts its least recently
    used record, a dirty set, and a second bounded cache of identities. */
module GraphStores {
  import opened Options
  import opened GraphRecords
  import opened OrderedDicts
  import opened TarjanMachine
  import opened TarjanComponents
  import opened AdjacencyArrays
  import opened ArrayTarjan
  import opened DiskAnalysis
  import opened GraphMeaning

  // ---------- tables ----------

  datatype Key = NodeKey(ordinal: nat) | EdgeKey(ordinal: nat)

  datatype Record = NodeRecord(node: Node) | EdgeRecord(edge: Edge)

  /** The payload of a node inserted but never written back is absent. */
  datatype NodeRow = NodeRow(id: string, payload: Option<Node>)

  datatype EdgeRow = EdgeRow(source: nat, target: nat, role: string, argIndex: nat, ref: string,
                             cell: Option<nat>, cellName: string, extra: map<string, Value>)

  function SelectNode(rows: seq<NodeRow>, id: string): (r: Option<nat>)
    ensures r.None? ==> forall i :: 0 <= i < |rows| ==> rows[i].id != id
    ensures r.Some? ==> r.value < |rows| && rows[r.value].id == id
  {
    if rows == [] then None
    else if rows[|rows| - 1].id == id then Some(|rows| - 1)
    else SelectNode(rows[..|rows| - 1], id)
  }

  predicate Conflicts(row: EdgeRow, source: nat, target: nat, edge: Edge) {
    && row.source == source && row.target == target && row.role == edge.role && row.argIndex == edge.argIndex
    && row.ref == edge.ref
  }

  /** Some other edge has the same ends, role, slot and reference. */
  ghost predicate RepeatsOther(edges: seq<Edge>, ordinal: nat, edge: Edge) {
    exists k :: 0 <= k < |edges| && k != ordinal && SameEdge(edges[k], edge)
  }

  /** A node of that identity lies in one of the final components. */
  ghost predicate OnFinalCycle(nodes: seq<Node>, edges: seq<Edge>, key: string) {
    && AllEndsKnown(nodes, edges) && Ordinal(nodes, key) < |nodes|
    && InComps(FinalCycles(nodes, edges), Ordinal(nodes, key))
  }

  // ---------- outcomes ----------

  /** A read finds a record, finds none, or runs past the end of the arrays of the final pass. */
  datatype Read<+T> = Got(value: T) | NoRecord | OutOfRange

  function Fetched<T>(record: Option<T>): (r: Read<T>) {
    if record.Some? then Got(record.value) else OutOfRange
  }

  datatype Outcome =
    | Done
    | MissingNode
    | IdentityDiffers
    | BadFlags
    | FlagsOutOfRange
    | Duplicate
    | TooManyNodes
    | Repeated
    | AfterFinalPass

  // ---------- degrees and flags carried by a record ----------

  /** What an array of counts accepts: a whole number that is not negative, or a truth value as 0 or 1. */
  function Count(value: Value): (r: Option<nat>) {
    match value
    case Number(n) => if n >= 0 then Some(n) else None
    case Flag(b) => Some(if b then 1 else 0)
    case _ => None
  }

  function CountAt(fields: map<string, Value>, name: string): (r: Option<nat>) {
    if name in fields then Count(fields[name]) else None
  }

  predicate Truthy(value: Value) {
    match value
    case Null => false
    case Text(t) => t != ""
    case Number(n) => n != 0
    case Flag(b) => b
  }

  /** A count is kept as it is and a truth value as 0 or 1; nothing else is a count. Only an absent
      value, the empty text, nought and false leave a flag unset. */
  lemma WhatArraysAccept(value: Value)
    ensures Count(value).Some? <==> (value.Number? && value.number >= 0) || value.Flag?
    ensures Count(value).Some? ==>
      value == Number(Count(value).value) || value == Flag(Count(value).value == 1)
    ensures Count(value).Some? && value.Flag? ==> Count(value).value <= 1
    ensures !Truthy(value) <==> value == Null || value == Text("") || value == Number(0) || value == Flag(false)
  {
  }

  /** What becomes of a node written after the final pass, by the fields it carries. */
  function FlagsOutcome(fields: map<string, Value>, ordinal: nat, length: nat): (r: Outcome)
    ensures r == Done ==> && ordinal < length && "in_cycle" in fields
                          && CountAt(fields, "in_degree").Some? && CountAt(fields, "out_degree").Some?
  {
    if "in_degree" !in fields then BadFlags
    else if ordinal >= length then FlagsOutOfRange
    else if CountAt(fields, "in_degree").None? || CountAt(fields, "out_degree").None? || "in_cycle" !in fields
      then BadFlags
    else Done
  }

  /** A record without an in-degree is refused before its place is looked at, a place past the arrays
      before anything else the record lacks. */
  lemma WhenFlagsAreWritten(fields: map<string, Value>, ordinal: nat, length: nat)
    ensures var r := FlagsOutcome(fields, ordinal, length);
      && (r == FlagsOutOfRange <==> "in_degree" in fields && ordinal >= length)
      && (r == Done <==>
          && ordinal < length && "in_degree" in fields && "out_degree" in fields && "in_cycle" in fields
          && ((fields["in_degree"].Number? && fields["in_degree"].number >= 0) || fields["in_degree"].Flag?)
          && ((fields["out_degree"].Number? && fields["out_degree"].number >= 0) || fields["out_degree"].Flag?))
      && r in {Done, BadFlags, FlagsOutOfRange}
  {
  }

  /** The array of counts after an attempt to write one. */
  function WithCount(counts: seq<nat>, ordinal: nat, count: Option<nat>): (r: seq<nat>) {
    if ordinal < |counts| && count.Some? then counts[ordinal := count.value] else counts
  }

  /** A node that carries these degrees and this flag. */
  predicate Carries(value: Node, ins: nat, outs: nat, flag: bool) {
    value == DecorateNode(value, ins, outs, flag)
  }

  /** A node whose degrees are plain numbers and whose flag is a plain truth value. */
  predicate Plain(value: Node) {
    && CountAt(value.fields, "in_degree").Some? && CountAt(value.fields, "out_degree").Some?
      && "in_cycle" in value.fields
    && Carries(value, CountAt(value.fields, "in_degree").value, CountAt(value.fields, "out_degree").value,
               Truthy(value.fields["in_cycle"]))
  }

  /** Both flags, the second looked at only when the first is set. */
  function BothSet(flags: seq<bool>, source: nat, target: nat): (r: Option<bool>) {
    if source >= |flags| then None
    else if !flags[source] then Some(false)
    else if target >= |flags| then None
    else Some(flags[target])
  }

  // ---------- what a read shows after the final pass ----------

  ghost predicate NodesShown(nodes: seq<Node>, views: seq<Node>, ins: seq<nat>, outs: seq<nat>, flags: seq<bool>) {
    && |views| == |nodes| == |ins| == |outs| == |flags|
    && forall i :: 0 <= i < |nodes| ==> views[i] == DecorateNode(nodes[i], ins[i], outs[i], flags[i])
  }

  ghost predicate EdgeShown(edge: Edge, view: Edge, row: EdgeRow, flags: seq<bool>) {
    && row.source < |flags| && row.target < |flags|
    && view == DecorateEdge(edge, flags[row.source] && flags[row.target])
  }

  ghost predicate EdgesShown(edges: seq<Edge>, views: seq<Edge>, rows: seq<EdgeRow>, flags: seq<bool>) {
    && |views| == |edges| == |rows|
    && forall k :: 0 <= k < |edges| ==> EdgeShown(edges[k], views[k], rows[k], flags)
  }

  /** No edge's flag, taken from its ends, has changed. */
  ghost predicate FlagsKept(rows: seq<EdgeRow>, was: seq<bool>, now: seq<bool>) {
    forall k :: 0 <= k < |rows| ==>
      BothSet(was, rows[k].source, rows[k].target) == BothSet(now, rows[k].source, rows[k].target)
  }

  lemma FlagsDiffer(edge: Edge, a: bool, b: bool)
    ensures DecorateEdge(edge, a) == DecorateEdge(edge, b) <==> a == b
  {
    assert DecorateEdge(edge, a).extra["in_cycle"] == Flag(a) && DecorateEdge(edge, b).extra["in_cycle"] == Flag(b);
  }

  lemma CountsDiffer(node: Node, i: nat, d: nat, f: bool, i': nat, d': nat, f': bool)
    ensures DecorateNode(node, i, d, f) == DecorateNode(node, i', d', f') <==> i == i' && d == d' && f == f'
  {
    var a, b := DecorateNode(node, i, d, f).fields, DecorateNode(node, i', d', f').fields;
    assert a["in_degree"] == Number(i) && a["out_degree"] == Number(d) && a["in_cycle"] == Flag(f);
    assert b["in_degree"] == Number(i') && b["out_degree"] == Number(d') && b["in_cycle"] == Flag(f');
  }

  /** Overwriting one node, its degrees and its flag shows every node exactly when the node carries them. */
  lemma ShownStep(nodes: seq<Node>, views: seq<Node>, ins: seq<nat>, outs: seq<nat>, flags: seq<bool>,
                  o: nat, value: Node, i: nat, d: nat, flag: bool)
    requires NodesShown(nodes, views, ins, outs, flags) && o < |nodes|
    ensures NodesShown(nodes[o := value], views[o := value], ins[o := i], outs[o := d], flags[o := flag])
        <==> Carries(value, i, d, flag)
  {
    hide DecorateNode;
    assert nodes[o := value][o] == value;
  }

  /** Counts overwritten under unchanged nodes show every node exactly when they are unchanged. */
  lemma CountsShown(nodes: seq<Node>, views: seq<Node>, ins: seq<nat>, outs: seq<nat>, flags: seq<bool>,
                    ins': seq<nat>, outs': seq<nat>)
    requires NodesShown(nodes, views, ins, outs, flags) && |ins'| == |ins| && |outs'| == |outs|
    ensures NodesShown(nodes, views, ins', outs', flags) <==> ins' == ins && outs' == outs
  {
    hide DecorateNode;
    forall k: nat | k < |nodes|
      ensures views[k] == DecorateNode(nodes[k], ins'[k], outs'[k], flags[k])
          <==> ins'[k] == ins[k] && outs'[k] == outs[k]
    {
      CountsDiffer(nodes[k], ins[k], outs[k], flags[k], ins'[k], outs'[k], flags[k]);
    }
    if NodesShown(nodes, views, ins', outs', flags) {
      assert forall k :: 0 <= k < |nodes| ==> ins'[k] == ins[k] && outs'[k] == outs[k];
    }
  }

  lemma ShownIff(edges: seq<Edge>, views: seq<Edge>, rows: seq<EdgeRow>, was: seq<bool>, now: seq<bool>)
    requires EdgesShown(edges, views, rows, was) && |now| == |was|
    ensures EdgesShown(edges, views, rows, now) <==> FlagsKept(rows, was, now)
  {
    hide DecorateEdge;
    forall k: nat | k < |edges|
      ensures EdgeShown(edges[k], views[k], rows[k], now)
        <==> BothSet(was, rows[k].source, rows[k].target) == BothSet(now, rows[k].source, rows[k].target)
    {
      assert EdgeShown(edges[k], views[k], rows[k], was);
      FlagsDiffer(edges[k], was[rows[k].source] && was[rows[k].target], now[rows[k].source] && now[rows[k].target]);
    }
  }

  lemma OneShown(value: Edge, row: EdgeRow, flags: seq<bool>)
    requires row.source < |flags| && row.target < |flags|
    ensures EdgeShown(value, value, row, flags)
        <==> value == DecorateEdge(value, flags[row.source] && flags[row.target])
  {
  }

  /** Overwriting one edge and its row shows every edge exactly when the edge carries the flag of its ends. */
  lemma EdgeShownIff(edges: seq<Edge>, views: seq<Edge>, rows: seq<EdgeRow>, flags: seq<bool>, o: nat, row: EdgeRow,
                     value: Edge)
    requires EdgesShown(edges, views, rows, flags) && o < |edges| && row.source < |flags| && row.target < |flags|
    ensures EdgesShown(edges[o := value], views[o := value], rows[o := row], flags)
        <==> value == DecorateEdge(value, flags[row.source] && flags[row.target])
  {
    hide DecorateEdge, EdgeShown;
    var edges', views', rows' := edges[o := value], views[o := value], rows[o := row];
    OneShown(value, row, flags);
    forall k: nat | k < |edges|
      ensures EdgeShown(edges'[k], views'[k], rows'[k], flags)
        <==> (k == o ==> value == DecorateEdge(value, flags[row.source] && flags[row.target]))
    {
      if k != o { assert EdgeShown(edges[k], views[k], rows[k], flags); }
    }
    assert edges'[o] == value;
  }

  /** Flags that say which nodes the components list. */
  ghost predicate FlagsList(flags: seq<bool>, cycles: seq<seq<nat>>) {
    forall v :: 0 <= v < |flags| ==> (flags[v] <==> InComps(cycles, v))
  }

  lemma FlagsListAfter(flags: seq<bool>, cycles: seq<seq<nat>>, o: nat, flag: bool)
    requires FlagsList(flags, cycles) && o < |flags|
    ensures FlagsList(flags[o := flag], cycles) <==> (flag <==> InComps(cycles, o))
  {
    hide InComps;
    assert flags[o := flag][o] == flag;
  }

  class GraphStore {
    const capacity: nat
    var nodeRows: seq<NodeRow>
    var edgeRows: seq<EdgeRow>
    var cache: OrderedDict<Key, Record>
    var ids: OrderedDict<string, nat>
    var dirty: set<Key>
    var indegree: array?<nat>
    var outdegree: array?<nat>
    var cyclic: array?<bool>
    var cycles: seq<seq<nat>>
    var cyclicCount: nat

    // what the tables and the cache stand for
    ghost var nodes: seq<Node>
    ghost var edges: seq<Edge>

    // what a plain list of records would show: what was last written, with the final pass written
    // into the records themselves
    ghost var nodeViews: seq<Node>
    ghost var edgeViews: seq<Edge>

    ghost predicate RowHolds(row: EdgeRow, edge: Edge)
      reads this`nodes
    {
      && row.source < |nodes| && row.target < |nodes|
      && nodes[row.source].id == edge.source && nodes[row.target].id == edge.target
      && row.role == edge.role && row.argIndex == edge.argIndex && row.ref == edge.ref
      && row.cellName == edge.cell && row.extra == edge.extra
    }

    /** The tables agree with what the store stands for, unwritten node payloads aside. */
    ghost predicate TablesHold()
      reads this`nodes, this`edges, this`nodeRows, this`edgeRows, this`dirty
    {
      && |nodeRows| == |nodes| && |edgeRows| == |edges|
      && DistinctIds(nodes) && DistinctEdges(edges)
      && (forall i :: 0 <= i < |nodes| ==> nodeRows[i].id == nodes[i].id)
      && (forall i :: 0 <= i < |nodes| && NodeKey(i) !in dirty ==> nodeRows[i].payload == Some(nodes[i]))
      && (forall k :: 0 <= k < |edges| ==> RowHolds(edgeRows[k], edges[k]))
    }

    /** A cached record belongs to a row and has its identity. */
    ghost predicate Fits(key: Key, record: Record)
      reads this`nodes, this`edges
    {
      match key
      case NodeKey(o) => record.NodeRecord? && o < |nodes| && record.node.id == nodes[o].id
      case EdgeKey(o) => record.EdgeRecord? && o < |edges|
    }

    /** The cache holds the node that is to be written to this row. */
    ghost predicate Awaits(key: Key)
      reads this`nodes, this`cache
    {
      key.NodeKey? && key.ordinal < |nodes| && key in cache.data && cache.data[key] == NodeRecord(nodes[key.ordinal])
    }

    /** Cached records fit their rows, `but` aside; dirty records are cached and await writing. */
    ghost predicate CacheHolds(but: Option<Key>)
      reads this`nodes, this`edges, this`cache, this`dirty
    {
      && cache.Valid()
      && (forall k :: k in cache.data && but != Some(k) ==> Fits(k, cache.data[k]))
      && (forall k :: k in dirty ==> k.NodeKey? && (but == Some(k) || Awaits(k)))
    }

    ghost predicate IdsHold()
      reads this`nodes, this`ids
    {
      && ids.Valid() && |ids.order| <= capacity
      && (forall s :: s in ids.data ==> ids.data[s] < |nodes| && nodes[ids.data[s]].id == s)
    }

    /** No arrays before the final pass; afterwards one entry for each node there was then. */
    ghost predicate ArraysHold()
      reads this`nodes, this`indegree, this`outdegree, this`cyclic
    {
      if cyclic == null then indegree == null && outdegree == null
      else
        && indegree != null && outdegree != null && indegree != outdegree
        && indegree.Length == outdegree.Length == cyclic.Length <= |nodes|
    }

    /** Tables, caches and arrays fit together: every operation keeps this, whatever is put, inserted,
        read or evicted, before and after the final pass. */
    ghost predicate Coherent()
      reads this
    {
      && capacity >= 1 && TablesHold() && CacheHolds(None) && |cache.order| <= capacity && IdsHold() && ArraysHold()
      && |nodeViews| == |nodes| && |edgeViews| == |edges| && InOrder(Ids(nodes), cycles)
    }

    ghost predicate InRange(key: Key)
      reads this`nodeViews, this`edgeViews
    {
      match key
      case NodeKey(o) => o < |nodeViews|
      case EdgeKey(o) => o < |edgeViews|
    }

    /** What a read of the record should return. */
    ghost function View(key: Key): (r: Record)
      requires InRange(key)
      reads this`nodeViews, this`edgeViews
    {
      match key
      case NodeKey(o) => NodeRecord(nodeViews[o])
      case EdgeKey(o) => EdgeRecord(edgeViews[o])
    }

    /** These records are what a read should return, `but` aside. */
    ghost predicate Shows(records: map<Key, Record>, but: Option<Key>)
      reads this`nodeViews, this`edgeViews
    {
      forall k :: k in records && but != Some(k) ==> InRange(k) && records[k] == View(k)
    }

    ghost predicate CacheShows()
      reads this`nodeViews, this`edgeViews, this`cache
    {
      Shows(cache.data, None)
    }

    /** Nodes, and edges with these rows, are read from their rows as they should be. */
    ghost predicate RowsShown(edges: seq<Edge>, views: seq<Edge>, rows: seq<EdgeRow>)
      reads this`nodes, this`nodeViews, this`indegree, this`outdegree, this`cyclic, indegree, outdegree, cyclic
    {
      if cyclic == null then nodeViews == nodes && views == edges
      else
        && indegree != null && outdegree != null
        && NodesShown(nodes, nodeViews, indegree[..], outdegree[..], cyclic[..])
        && EdgesShown(edges, views, rows, cyclic[..])
    }

    /** Records that are not in the cache are read as they should be. */
    ghost predicate ViewsHold()
      reads this`nodes, this`edges, this`nodeViews, this`edgeViews, this`edgeRows
      reads this`indegree, this`outdegree, this`cyclic, indegree, outdegree, cyclic
    {
      RowsShown(edges, edgeViews, edgeRows)
    }

    /** Every read returns what it should, now and after any eviction. */
    ghost predicate Readable()
      reads this, indegree, outdegree, cyclic
    {
      Coherent() && CacheShows() && ViewsHold()
    }

    /** Under construction: no degrees yet. */
    ghost predicate Valid()
      reads this, indegree, outdegree, cyclic
    {
      Readable() && cyclic == null && cycles == [] && cyclicCount == 0
    }

    /** The plain records are those of the final pass over what was built. */
    ghost predicate Decorated()
      reads this`nodes, this`edges, this`nodeViews, this`edgeViews
    {
      AllEndsKnown(nodes, edges) && nodeViews == FinalNodes(nodes, edges) && edgeViews == FinalEdges(nodes, edges)
    }

    ghost predicate Results()
      reads this`nodes, this`edges, this`nodeViews, this`edgeViews, this`cyclic, this`cycles, this`cyclicCount, cyclic
    {
      && Decorated() && cyclic != null && cyclic.Length == |nodes|
      && cycles == FinalCycles(nodes, edges) && cyclicCount == TotalSize(cycles)
      && FlagsList(cyclic[..], cycles)
    }

    /** Reads show the degrees and cycle flags of the graph that was built, and the components are its. */
    ghost predicate Processed()
      reads this, indegree, outdegree, cyclic
    {
      Readable() && Results()
    }

    constructor (capacity: nat)
      requires capacity >= 1
      ensures Valid() && nodes == [] && edges == [] && fresh(this) && this.capacity == capacity
    {
      this.capacity := capacity;
      nodeRows, edgeRows := [], [];
      cache, ids := OrderedDict([], map[]), OrderedDict([], map[]);
      dirty := {};
      indegree, outdegree, cyclic := null, null, null;
      cycles, cyclicCount := [], 0;
      nodes, edges := [], [];
      nodeViews, edgeViews := [], [];
    }

    // ---------- what a read returns ----------

    /** A node read from its row: with its degrees and flag after the final pass, if the arrays have them. */
    ghost function FreshNode(ordinal: nat): (r: Option<Node>)
      requires ArraysHold() && ordinal < |nodes|
      reads this`nodes, this`indegree, this`outdegree, this`cyclic, indegree, outdegree, cyclic
    {
      if cyclic == null then Some(nodes[ordinal])
      else if ordinal >= cyclic.Length then None
      else Some(DecorateNode(nodes[ordinal], indegree[ordinal], outdegree[ordinal], cyclic[ordinal]))
    }

    /** An edge read from its row: with the flags of its ends after the final pass. */
    ghost function FreshEdge(ordinal: nat): (r: Option<Edge>)
      requires ordinal < |edges| == |edgeRows|
      reads this`edges, this`edgeRows, this`cyclic, cyclic
    {
      if cyclic == null then Some(edges[ordinal])
      else
        var flag := BothSet(cyclic[..], edgeRows[ordinal].source, edgeRows[ordinal].target);
        if flag.None? then None else Some(DecorateEdge(edges[ordinal], flag.value))
    }

    /** What a read of a node returns: the cached record if there is one, else its row. */
    ghost function ReadNode(ordinal: nat): (r: Read<Node>)
      requires CacheHolds(None) && ArraysHold()
      reads this`nodes, this`edges, this`cache, this`dirty, this`indegree, this`outdegree, this`cyclic, indegree,
          outdegree, cyclic
    {
      if NodeKey(ordinal) in cache.data then Got(cache.data[NodeKey(ordinal)].node)
      else if ordinal >= |nodes| then NoRecord
      else Fetched(FreshNode(ordinal))
    }

    ghost function ReadEdge(ordinal: nat): (r: Read<Edge>)
      requires CacheHolds(None) && |edges| == |edgeRows|
      reads this`nodes, this`edges, this`edgeRows, this`cache, this`dirty, this`cyclic, cyclic
    {
      if EdgeKey(ordinal) in cache.data then Got(cache.data[EdgeKey(ordinal)].edge)
      else if ordinal >= |edges| then NoRecord
      else Fetched(FreshEdge(ordinal))
    }

    /** Every row is read as it should be. */
    ghost predicate RowsShow()
      requires Coherent()
      reads this, indegree, outdegree, cyclic
    {
      && (forall o :: 0 <= o < |nodes| ==> FreshNode(o) == Some(nodeViews[o]))
      && (forall k :: 0 <= k < |edges| ==> FreshEdge(k) == Some(edgeViews[k]))
    }

    lemma ShownNodeIsFresh(ordinal: nat)
      requires Coherent() && ordinal < |nodes| && cyclic != null && cyclic.Length == |nodes|
      ensures FreshNode(ordinal) == Some(nodeViews[ordinal])
          <==>
            nodeViews[ordinal] == DecorateNode(nodes[ordinal], indegree[ordinal], outdegree[ordinal], cyclic[ordinal])
    {
      hide DecorateNode;
    }

    lemma ShownEdgeIsFresh(ordinal: nat)
      requires Coherent() && ordinal < |edges| && cyclic != null && cyclic.Length == |nodes|
      ensures FreshEdge(ordinal) == Some(edgeViews[ordinal])
          <==> EdgeShown(edges[ordinal], edgeViews[ordinal], edgeRows[ordinal], cyclic[..])
    {
      hide DecorateEdge, DistinctIds, DistinctEdges, CacheHolds, IdsHold, InOrder;
      assert RowHolds(edgeRows[ordinal], edges[ordinal]);
    }

    lemma PlainReads()
      requires Coherent() && cyclic == null
      ensures forall o :: 0 <= o < |nodes| ==> FreshNode(o) == Some(nodes[o])
      ensures forall k :: 0 <= k < |edges| ==> FreshEdge(k) == Some(edges[k])
    {
    }

    lemma PastTheArrays()
      requires Coherent() && cyclic != null && cyclic.Length < |nodes|
      ensures FreshNode(cyclic.Length).None?
    {
    }

    lemma SameLength()
      requires TablesHold()
      ensures |nodeRows| == |nodes| && |edgeRows| == |edges|
    {
    }

    /** Readable means that every record, were it not cached, would be read as it should, and that
        every cached one is what it should be. */
    lemma ReadableMeans()
      requires Coherent()
      ensures Readable()
          <==> CacheShows() && RowsShow()
    {
      hide TablesHold, CacheHolds, IdsHold, CacheShows, InOrder, DecorateNode, EdgeShown, FreshNode, FreshEdge;
      SameLength();
      if cyclic == null {
        PlainReads();
      } else if cyclic.Length == |nodes| {
        forall o: nat | o < |nodes| { ShownNodeIsFresh(o); }
        forall k: nat | k < |edges| { ShownEdgeIsFresh(k); }
      } else {
        PastTheArrays();
      }
    }

    lemma NoArraysYet()
      requires Valid()
      ensures cyclic == null && indegree == null && outdegree == null
    {
    }

    // ---------- the record cache ----------

    method FlushRecord(key: Key, value: Record)
      requires TablesHold()
      requires (key in dirty ==> key.NodeKey? && key.ordinal < |nodes| && value == NodeRecord(nodes[key.ordinal]))
      modifies this`nodeRows, this`dirty
      ensures TablesHold() && dirty == old(dirty) - {key}
      ensures old(CacheHolds(None)) ==> CacheHolds(None)
    {
      if key in dirty {
        nodeRows := nodeRows[key.ordinal := nodeRows[key.ordinal].(payload := Some(value.node))];
        dirty := dirty - {key};
      }
    }

    lemma OldestIsCached()
      requires CacheHolds(None) && |cache.order| > 0
      ensures cache.order[0] in cache.data && (cache.order[0] in dirty ==> Awaits(cache.order[0]))
    {
      assert cache.order[0] in cache.order;
    }

    method DropOldest()
      requires CacheHolds(None) && |cache.order| > 0 && cache.order[0] !in dirty
      modifies this`cache
      ensures CacheHolds(None) && cache == old(cache).DropOldest()
    {
      DropValid(cache);
      cache := cache.DropOldest();
    }

    /** Write back and forget the least recently used record. */
    method EvictOldest()
      requires TablesHold() && CacheHolds(None) && |cache.order| > 0
      modifies this`cache, this`nodeRows, this`dirty
      ensures TablesHold() && CacheHolds(None) && cache == old(cache).DropOldest() && dirty <= old(dirty)
    {
      hide TablesHold;
      var oldest := cache.order[0];
      OldestIsCached();
      FlushRecord(oldest, cache.data[oldest]);
      DropOldest();
    }

    /** The record is the node that is to be written to this row. */
    ghost predicate Current(key: Key, value: Record)
      reads this`nodes
    {
      key.NodeKey? && key.ordinal < |nodes| && value == NodeRecord(nodes[key.ordinal])
    }

    method Place(key: Key, value: Record)
      requires CacheHolds(Some(key)) && Fits(key, value) && (key in dirty ==> Current(key, value))
      modifies this`cache
      ensures CacheHolds(None) && cache == old(cache).Put(key, value)
    {
      PutValid(cache, key, value);
      cache := cache.Put(key, value);
    }

    /** Cache a record, writing back and evicting the least recently used ones. */
    method Remember(key: Key, value: Record)
      requires TablesHold() && CacheHolds(Some(key)) && Fits(key, value) && (key in dirty ==> Current(key, value))
      modifies this`cache, this`nodeRows, this`dirty
      ensures TablesHold() && CacheHolds(None) && dirty <= old(dirty)
      ensures cache == old(cache).Put(key, value).Trimmed(capacity)
    {
      hide TablesHold, CacheHolds, Fits;
      Place(key, value);
      while |cache.order| > capacity
        invariant TablesHold() && CacheHolds(None) && dirty <= old(dirty)
        invariant cache.Trimmed(capacity) == old(cache).Put(key, value).Trimmed(capacity)
        decreases |cache.order|
      {
        EvictOldest();
      }
    }

    /** Caching what a read should return keeps the rest of the cache as it should be. */
    lemma RememberShows(was: OrderedDict<Key, Record>, key: Key, value: Record)
      requires was.Valid() && capacity >= 1 && cache == was.Put(key, value).Trimmed(capacity)
      requires Shows(was.data, Some(key))
      ensures |cache.order| <= capacity && (CacheShows() <==> InRange(key) && value == View(key))
    {
      hide View, InRange, OrderedDict.Put, OrderedDict.Trimmed;
      PutTrimmed(was, key, value, capacity);
      assert key in cache.data;
    }

    /** Write every dirty record back. */
    method Flush()
      requires Coherent()
      modifies this`nodeRows, this`dirty
      ensures Coherent() && dirty == {}
      ensures old(Readable()) ==> Readable()
    {
      hide IdsHold, InOrder, ViewsHold, CacheShows;
      var pending := dirty;
      while pending != {}
        invariant TablesHold() && CacheHolds(None) && pending == dirty
        decreases pending
      {
        var key :| key in pending;
        assert Awaits(key);
        FlushRecord(key, cache.data[key]);
        pending := pending - {key};
      }
    }

    // ---------- identities ----------

    /** Cache an identity, forgetting the least recently used ones. */
    method RememberId(key: string, value: nat)
      requires capacity >= 1 && IdsHold() && value < |nodes| && nodes[value].id == key
      modifies this`ids
      ensures IdsHold() && ids == old(ids).Put(key, value).Trimmed(capacity)
    {
      PutTrimmed(ids, key, value, capacity);
      PutValid(ids, key, value);
      ids := ids.Put(key, value);
      while |ids.order| > capacity
        invariant ids.Trimmed(capacity) == old(ids).Put(key, value).Trimmed(capacity)
        decreases |ids.order|
      {
        ids := ids.DropOldest();
      }
    }

    lemma IdsOf(key: string)
      requires TablesHold() && IdsHold()
      ensures DistinctIds(nodes) && |nodeRows| == |nodes|
      ensures forall i :: 0 <= i < |nodes| ==> nodeRows[i].id == nodes[i].id
      ensures key in ids.data ==> ids.data[key] < |nodes| && nodes[ids.data[key]].id == key
    {
    }

    /** The ordinal of an identity: from the cache, or from its row. */
    method NodeOrdinal(key: string) returns (o: Option<nat>)
      requires Coherent()
      modifies this`ids
      ensures Coherent() && (old(Readable()) ==> Readable())
      ensures o == if Ordinal(nodes, key) < |nodes| then Some(Ordinal(nodes, key)) else None
    {
      hide TablesHold, CacheHolds, IdsHold, ArraysHold, ViewsHold, CacheShows, InOrder, OrderedDict.Put;
      hide OrderedDict.Trimmed;
      IdsOf(key);
      if key in ids.data {
        o := Some(ids.data[key]);
        RememberId(key, ids.data[key]);
        OrdinalOf(nodes, o.value);
      } else {
        o := SelectNode(nodeRows, key);
        if o.Some? {
          RememberId(key, o.value);
          OrdinalOf(nodes, o.value);
        }
      }
    }

    // ---------- reads ----------

    lemma RowIsWritten(ordinal: nat)
      requires Coherent() && ordinal < |nodes| && NodeKey(ordinal) !in cache.data
      ensures ordinal < |nodeRows| && nodeRows[ordinal].payload == Some(nodes[ordinal])
    {
      assert NodeKey(ordinal) !in dirty;
    }

    lemma FitsIfCached(key: Key)
      requires CacheHolds(None)
      ensures key in cache.data ==> Fits(key, cache.data[key])
    {
    }

    /** A node record from the cache, or from its row with the final degrees and flag added. */
    method FetchNode(ordinal: nat) returns (r: Read<Node>)
      requires Coherent()
      ensures r == ReadNode(ordinal) && (r.Got? ==> Fits(NodeKey(ordinal), NodeRecord(r.value)))
    {
      SameLength();
      FitsIfCached(NodeKey(ordinal));
      hide TablesHold, CacheHolds, IdsHold, InOrder;
      var key := NodeKey(ordinal);
      if key in cache.data { return Got(cache.data[key].node); }
      if ordinal >= |nodeRows| { return NoRecord; }
      RowIsWritten(ordinal);
      var node := nodeRows[ordinal].payload.value;
      if cyclic != null {
        if ordinal >= cyclic.Length { return OutOfRange; }
        node := DecorateNode(node, indegree[ordinal], outdegree[ordinal], cyclic[ordinal]);
      }
      return Got(node);
    }

    lemma AwaitsIfDirty(key: Key)
      requires CacheHolds(None) && key in dirty
      ensures Awaits(key)
    {
    }

    lemma AnyKey(key: Key)
      requires CacheHolds(None)
      ensures CacheHolds(Some(key))
    {
    }

    lemma CoherentParts()
      requires Coherent()
      ensures capacity >= 1 && TablesHold() && CacheHolds(None) && |cache.order| <= capacity && IdsHold()
      ensures ArraysHold()
      ensures |nodeViews| == |nodes| && |edgeViews| == |edges| && InOrder(Ids(nodes), cycles) && cache.Valid()
    {
    }

    lemma PartsCoherent(was: OrderedDict<Key, Record>, key: Key, value: Record)
      requires capacity >= 1 && TablesHold() && CacheHolds(None) && IdsHold() && ArraysHold()
      requires |nodeViews| == |nodes| && |edgeViews| == |edges| && InOrder(Ids(nodes), cycles)
      requires was.Valid() && cache == was.Put(key, value).Trimmed(capacity)
      ensures Coherent() && key in cache.data && cache.data[key] == value
      ensures forall k :: k in cache.data && k != key ==> k in was.data && cache.data[k] == was.data[k]
    {
      hide TablesHold, CacheHolds, IdsHold, ArraysHold, InOrder, OrderedDict.Put, OrderedDict.Trimmed;
      PutTrimmed(was, key, value, capacity);
    }

    /** A record just fetched goes to the end of the cache. */
    method Refresh(key: Key, value: Record)
      requires Coherent() && Fits(key, value) && (key in cache.data ==> cache.data[key] == value)
      modifies this`cache, this`nodeRows, this`dirty
      ensures Coherent() && cache == old(cache).Put(key, value).Trimmed(capacity)
      ensures old(Readable()) && InRange(key) && value == View(key) ==> Readable()
    {
      hide TablesHold, CacheHolds, IdsHold, ArraysHold, InOrder, Fits, InRange, View, ViewsHold, OrderedDict.Put;
      hide OrderedDict.Trimmed, OrderedDict.Valid;
      CoherentParts();
      AnyKey(key);
      if key in dirty { AwaitsIfDirty(key); }
      ghost var was := cache;
      Remember(key, value);
      PartsCoherent(was, key, value);
      if old(Readable()) { RememberShows(was, key, value); }
    }

    lemma ReadableNode(ordinal: nat)
      requires Readable()
      ensures ReadNode(ordinal) == if ordinal < |nodes| then Got(nodeViews[ordinal]) else NoRecord
    {
      ReadableMeans();
      FitsIfCached(NodeKey(ordinal));
      hide TablesHold, CacheHolds, IdsHold, ArraysHold, InOrder, ViewsHold, FreshNode, FreshEdge;
    }

    lemma ReadableEdge(ordinal: nat)
      requires Readable()
      ensures ReadEdge(ordinal) == if ordinal < |edges| then Got(edgeViews[ordinal]) else NoRecord
    {
      ReadableMeans();
      FitsIfCached(EdgeKey(ordinal));
      hide TablesHold, CacheHolds, IdsHold, ArraysHold, InOrder, ViewsHold, FreshNode, FreshEdge;
    }

    /** Read a node record and remember it. */
    method GetNode(ordinal: nat) returns (r: Read<Node>)
      requires Coherent()
      modifies this`cache, this`nodeRows, this`dirty
      ensures Coherent() && r == old(ReadNode(ordinal))
      ensures cache == if r.Got? then old(cache).Put(NodeKey(ordinal), NodeRecord(r.value)).Trimmed(capacity)
          else old(cache)
      ensures r.Got? ==> ordinal < |nodes| && r.value.id == nodes[ordinal].id
      ensures old(Readable()) ==> Readable() && r == if ordinal < |nodes| then Got(nodeViews[ordinal]) else NoRecord
    {
      if Readable() { ReadableNode(ordinal); }
      r := FetchNode(ordinal);
      hide TablesHold, CacheHolds, IdsHold, ArraysHold, InOrder, ViewsHold, CacheShows, FreshNode, OrderedDict.Put;
      hide OrderedDict.Trimmed;
      if r.Got? { Refresh(NodeKey(ordinal), NodeRecord(r.value)); }
    }

    /** Read a row of the edge table, its ends looked up by ordinal. */
    method LoadEdge(ordinal: nat) returns (edge: Edge)
      requires TablesHold() && ordinal < |edges|
      ensures edge == edges[ordinal]
    {
      hide DistinctIds, DistinctEdges;
      var row := edgeRows[ordinal];
      assert RowHolds(row, edges[ordinal]);
      edge := Edge(nodeRows[row.source].id, nodeRows[row.target].id, row.role, row.argIndex, row.ref, row.cellName,
        row.extra);
    }

    method ReadFlags(source: nat, target: nat) returns (r: Option<bool>)
      requires cyclic != null
      ensures r == BothSet(cyclic[..], source, target)
    {
      if source >= cyclic.Length { return None; }
      if !cyclic[source] { return Some(false); }
      if target >= cyclic.Length { return None; }
      return Some(cyclic[target]);
    }

    method FetchEdge(ordinal: nat) returns (r: Read<Edge>)
      requires Coherent()
      ensures r == ReadEdge(ordinal) && (r.Got? ==> ordinal < |edges|)
    {
      SameLength();
      FitsIfCached(EdgeKey(ordinal));
      hide TablesHold, CacheHolds, IdsHold, InOrder, BothSet;
      var key := EdgeKey(ordinal);
      if key in cache.data { return Got(cache.data[key].edge); }
      if ordinal >= |edgeRows| { return NoRecord; }
      var edge := LoadEdge(ordinal);
      if cyclic != null {
        var row := edgeRows[ordinal];
        var flag := ReadFlags(row.source, row.target);
        if flag.None? { return OutOfRange; }
        edge := DecorateEdge(edge, flag.value);
      }
      return Got(edge);
    }

    /** Read an edge record and remember it. */
    method GetEdge(ordinal: nat) returns (r: Read<Edge>)
      requires Coherent()
      modifies this`cache, this`nodeRows, this`dirty
      ensures Coherent() && r == old(ReadEdge(ordinal))
      ensures cache == if r.Got? then old(cache).Put(EdgeKey(ordinal), EdgeRecord(r.value)).Trimmed(capacity)
          else old(cache)
      ensures old(Readable()) ==> Readable() && r == if ordinal < |edges| then Got(edgeViews[ordinal]) else NoRecord
    {
      if Readable() { ReadableEdge(ordinal); }
      r := FetchEdge(ordinal);
      hide TablesHold, CacheHolds, IdsHold, ArraysHold, InOrder, ViewsHold, CacheShows, FreshEdge, OrderedDict.Put;
      hide OrderedDict.Trimmed;
      if r.Got? { Refresh(EdgeKey(ordinal), EdgeRecord(r.value)); }
    }

    lemma ViewLengths()
      requires Coherent()
      ensures |nodeViews| == |nodes| == |nodeRows| && |edgeViews| == |edges| == |edgeRows|
      ensures ViewsHold() && cyclic != null ==> cyclic.Length == |nodes|
    {
    }

    lemma WrittenRow(i: nat)
      requires TablesHold() && dirty == {} && i < |nodes|
      ensures |nodeRows| == |nodes| && nodeRows[i].payload == Some(nodes[i])
    {
    }

    lemma AllNodesShown(records: seq<Node>)
      requires Coherent() && RowsShow() && |records| <= |nodes|
      requires forall i :: 0 <= i < |records| ==> FreshNode(i) == Some(records[i])
      requires |records| < |nodes| ==> FreshNode(|records|).None?
      ensures records == nodeViews && |records| == |nodes|
    {
      hide FreshNode, TablesHold, CacheHolds, IdsHold, InOrder;
    }

    lemma AllEdgesShown(records: seq<Edge>)
      requires Coherent() && RowsShow() && |records| <= |edges| == |edgeRows|
      requires forall k :: 0 <= k < |records| ==> FreshEdge(k) == Some(records[k])
      requires |records| < |edges| ==> FreshEdge(|records|).None?
      ensures records == edgeViews && |records| == |edges|
    {
      hide FreshEdge, TablesHold, CacheHolds, IdsHold, InOrder;
    }

    method ScanNodes() returns (records: seq<Node>, complete: bool)
      requires Coherent() && dirty == {}
      ensures |records| <= |nodes| && (complete <==> |records| == |nodes|)
      ensures forall i :: 0 <= i < |records| ==> FreshNode(i) == Some(records[i])
      ensures !complete ==> FreshNode(|records|).None?
    {
      ViewLengths();
      CoherentParts();
      records, complete := [], true;
      hide TablesHold, CacheHolds, IdsHold, InOrder;
      for i := 0 to |nodeRows|
        invariant |records| == i && forall j :: 0 <= j < i ==> FreshNode(j) == Some(records[j])
      {
        WrittenRow(i);
        var node := nodeRows[i].payload.value;
        if cyclic != null {
          if i >= cyclic.Length { return records, false; }
          node := DecorateNode(node, indegree[i], outdegree[i], cyclic[i]);
        }
        records := records + [node];
      }
    }

    /** Read all node rows in order, past the cache: what is dirty is written back first, then each row
        is read with the degrees and flag the arrays hold; reading stops where they end. */
    method ListNodes() returns (records: seq<Node>, complete: bool)
      requires Coherent()
      modifies this`nodeRows, this`dirty
      ensures Coherent() && |records| <= |nodes| && (complete <==> |records| == |nodes|)
      ensures forall i :: 0 <= i < |records| ==> FreshNode(i) == Some(records[i])
      ensures !complete ==> FreshNode(|records|).None?
      ensures old(Readable()) ==> Readable() && complete && records == nodeViews
    {
      hide TablesHold, CacheHolds, IdsHold, ArraysHold, InOrder, ViewsHold, CacheShows, FreshNode, RowsShow;
      Flush();
      records, complete := ScanNodes();
      if Readable() {
        ReadableMeans();
        AllNodesShown(records);
      }
    }

    /** Read all edge rows in order, past the cache, each with the flag its ends now give it; reading
        stops where the flags end. */
    method ListEdges() returns (records: seq<Edge>, complete: bool)
      requires Coherent()
      ensures |edgeRows| == |edges| && |records| <= |edges| && (complete <==> |records| == |edges|)
      ensures forall k :: 0 <= k < |records| ==> FreshEdge(k) == Some(records[k])
      ensures !complete ==> FreshEdge(|records|).None?
      ensures Readable() ==> complete && records == edgeViews
    {
      ViewLengths();
      CoherentParts();
      records, complete := [], true;
      hide TablesHold, CacheHolds, IdsHold, InOrder, ViewsHold, CacheShows, Readable, BothSet, DecorateEdge;
      for k := 0 to |edgeRows|
        invariant |records| == k && forall j :: 0 <= j < k ==> FreshEdge(j) == Some(records[j])
      {
        var edge := LoadEdge(k);
        if cyclic != null {
          var flag := ReadFlags(edgeRows[k].source, edgeRows[k].target);
          if flag.None? {
            complete := false;
            break;
          }
          edge := DecorateEdge(edge, flag.value);
        }
        records := records + [edge];
      }
      if Readable() {
        ReadableMeans();
        AllEdgesShown(records);
      }
    }

    // ---------- writing nodes ----------

    method MarkRow(ordinal: nat, value: Node)
      requires TablesHold() && ordinal < |nodes| && nodes[ordinal].id == value.id
      modifies this`dirty, this`nodes
      ensures TablesHold() && dirty == old(dirty) + {NodeKey(ordinal)} && nodes == old(nodes)[ordinal := value]
    {
      hide DistinctEdges;
      dirty := dirty + {NodeKey(ordinal)};
      nodes := nodes[ordinal := value];
    }

    ghost method ShowNode(ordinal: nat, value: Node)
      requires ordinal < |nodeViews|
      modifies this`nodeViews
      ensures nodeViews == old(nodeViews)[ordinal := value]
      ensures old(CacheShows()) ==> Shows(cache.data, Some(NodeKey(ordinal)))
    {
      nodeViews := nodeViews[ordinal := value];
    }

    method MarkWritten(ordinal: nat, value: Node)
      requires TablesHold() && CacheHolds(None) && IdsHold() && ordinal < |nodes| == |nodeViews|
      requires nodes[ordinal].id == value.id
      modifies this`dirty, this`nodes, this`nodeViews
      ensures TablesHold() && CacheHolds(Some(NodeKey(ordinal))) && IdsHold()
      ensures nodes == old(nodes)[ordinal := value] && nodeViews == old(nodeViews)[ordinal := value]
      ensures old(CacheShows()) ==> Shows(cache.data, Some(NodeKey(ordinal)))
    {
      hide TablesHold, OrderedDict.Valid, Shows;
      MarkRow(ordinal, value);
      ShowNode(ordinal, value);
    }

    /** Write the degrees and the flag a record carries into the arrays, one after the other: what is
        missing or refused stops the writing where it stands. */
    method WriteFlags(ordinal: nat, fields: map<string, Value>) returns (outcome: Outcome)
      requires ArraysHold() && cyclic != null
      modifies indegree, outdegree, cyclic
      ensures outcome == FlagsOutcome(fields, ordinal, cyclic.Length)
      ensures indegree[..] == WithCount(old(indegree[..]), ordinal, CountAt(fields, "in_degree"))
      ensures outdegree[..] == if CountAt(fields, "in_degree").Some?
          then WithCount(old(outdegree[..]), ordinal, CountAt(fields, "out_degree")) else old(outdegree[..])
      ensures cyclic[..] == if outcome == Done then old(cyclic[..])[ordinal := Truthy(fields["in_cycle"])]
          else old(cyclic[..])
    {
      if "in_degree" !in fields { return BadFlags; }
      if ordinal >= indegree.Length { return FlagsOutOfRange; }
      var ins := CountAt(fields, "in_degree");
      if ins.None? { return BadFlags; }
      indegree[ordinal] := ins.value;
      var outs := CountAt(fields, "out_degree");
      if outs.None? { return BadFlags; }
      outdegree[ordinal] := outs.value;
      if "in_cycle" !in fields { return BadFlags; }
      cyclic[ordinal] := Truthy(fields["in_cycle"]);
      return Done;
    }

    /** How an attempt to overwrite a node ends. */
    ghost function PutOutcome(ordinal: nat, value: Node): (r: Outcome)
      requires CacheHolds(None) && ArraysHold()
      reads this`nodes, this`edges, this`cache, this`dirty, this`indegree, this`outdegree, this`cyclic, indegree,
          outdegree, cyclic
      ensures r == Done ==> ordinal < |nodes|
    {
      FitsIfCached(NodeKey(ordinal));
      match ReadNode(ordinal)
      case NoRecord => MissingNode
      case OutOfRange => FlagsOutOfRange
      case Got(node) =>
        if node.id != value.id then IdentityDiffers
        else if cyclic == null then Done
        else FlagsOutcome(value.fields, ordinal, cyclic.Length)
    }

    /** The in-degrees, out-degrees and flags after an attempt that ends so. */
    ghost function InsAfter(outcome: Outcome, ordinal: nat, fields: map<string, Value>): (r: seq<nat>)
      requires indegree != null
      reads this`indegree, indegree
    {
      if outcome in {Done, BadFlags} then WithCount(indegree[..], ordinal, CountAt(fields, "in_degree"))
        else indegree[..]
    }

    ghost function OutsAfter(outcome: Outcome, ordinal: nat, fields: map<string, Value>): (r: seq<nat>)
      requires outdegree != null
      reads this`outdegree, outdegree
    {
      if outcome in {Done, BadFlags} && CountAt(fields, "in_degree").Some?
      then WithCount(outdegree[..], ordinal, CountAt(fields, "out_degree"))
      else outdegree[..]
    }

    ghost function FlagsAfter(outcome: Outcome, ordinal: nat, fields: map<string, Value>): (r: seq<bool>)
      requires cyclic != null
      reads this`cyclic, cyclic
    {
      if outcome == Done && ordinal < cyclic.Length && "in_cycle" in fields
      then cyclic[..][ordinal := Truthy(fields["in_cycle"])]
      else cyclic[..]
    }

    /** Whether reads stay right after an attempt that ends so. Before the final pass they do.
        Afterwards a node that is overwritten must carry plain degrees and a plain flag, and no edge's
        flag may change by it; a refused record must not have changed a degree. */
    ghost predicate PutKeepsReads(outcome: Outcome, ordinal: nat, value: Node)
      requires ArraysHold()
      reads this`edgeRows, this`nodes, this`indegree, this`outdegree, this`cyclic, indegree, outdegree, cyclic
    {
      cyclic != null ==>
        && (outcome == Done ==>
          Plain(value) && FlagsKept(edgeRows, cyclic[..], FlagsAfter(outcome, ordinal, value.fields)))
        && (outcome == BadFlags ==>
              && InsAfter(outcome, ordinal, value.fields) == indegree[..]
              && OutsAfter(outcome, ordinal, value.fields) == outdegree[..])
    }

    lemma ShownWithArrays()
      requires cyclic != null && indegree != null && outdegree != null
      ensures ViewsHold() <==>
        && NodesShown(nodes, nodeViews, indegree[..], outdegree[..], cyclic[..])
        && EdgesShown(edges, edgeViews, edgeRows, cyclic[..])
    {
    }

    /** Overwrite the degrees and the flag of a node, if its record carries any, and then the node. */
    method OverwriteFlags(ordinal: nat, value: Node) returns (outcome: Outcome)
      requires ArraysHold() && cyclic != null && ordinal < |nodes|
      modifies indegree, outdegree, cyclic
      ensures outcome == FlagsOutcome(value.fields, ordinal, cyclic.Length)
      ensures indegree[..] == old(InsAfter(outcome, ordinal, value.fields))
      ensures outdegree[..] == old(OutsAfter(outcome, ordinal, value.fields))
      ensures cyclic[..] == old(FlagsAfter(outcome, ordinal, value.fields))
      ensures outcome != Done && old(ViewsHold()) ==> (ViewsHold() <==> old(PutKeepsReads(outcome, ordinal, value)))
    {
      ShownWithArrays();
      ghost var ins, outs, flags := indegree[..], outdegree[..], cyclic[..];
      outcome := WriteFlags(ordinal, value.fields);
      ShownWithArrays();
      hide NodesShown, EdgesShown, ViewsHold, FlagsKept;
      if outcome != Done && old(ViewsHold()) {
        CountsShown(nodes, nodeViews, ins, outs, flags, indegree[..], outdegree[..]);
      }
    }

    lemma SameIds(was: seq<Node>, ordinal: nat, value: Node)
      requires ordinal < |was| && was[ordinal].id == value.id
      ensures Ids(was[ordinal := value]) == Ids(was)
    {
    }

    /** Write a node to the cache, to be written to its row later. */
    method StoreNode(ordinal: nat, value: Node)
      requires Coherent() && ordinal < |nodes| && nodes[ordinal].id == value.id
      modifies this`cache, this`nodeRows, this`dirty, this`nodes, this`nodeViews
      ensures Coherent() && nodes == old(nodes)[ordinal := value] && nodeViews == old(nodeViews)[ordinal := value]
      ensures NodeKey(ordinal) in cache.data && cache.data[NodeKey(ordinal)] == NodeRecord(value)
      ensures old(CacheShows()) ==> CacheShows()
    {
      hide TablesHold, CacheHolds, IdsHold, InOrder, CacheShows, Shows, OrderedDict.Put, OrderedDict.Trimmed;
      hide OrderedDict.Valid;
      CoherentParts();
      ghost var was := cache;
      MarkWritten(ordinal, value);
      SameIds(old(nodes), ordinal, value);
      Remember(NodeKey(ordinal), NodeRecord(value));
      PartsCoherent(was, NodeKey(ordinal), NodeRecord(value));
      if old(CacheShows()) { RememberShows(was, NodeKey(ordinal), NodeRecord(value)); }
    }

    lemma PutShown(nodes0: seq<Node>, views0: seq<Node>, ins: seq<nat>, outs: seq<nat>, flags: seq<bool>, o: nat,
                   value: Node, i: nat, d: nat, flag: bool)
      requires NodesShown(nodes0, views0, ins, outs, flags) && EdgesShown(edges, edgeViews, edgeRows, flags)
      requires o < |nodes0| && CountAt(value.fields, "in_degree") == Some(i)
          && CountAt(value.fields, "out_degree") == Some(d)
      requires "in_cycle" in value.fields && flag == Truthy(value.fields["in_cycle"])
      ensures |ins| == |outs| == |flags| == |nodes0| == |views0|
      ensures NodesShown(nodes0[o := value], views0[o := value], ins[o := i], outs[o := d], flags[o := flag])
              && EdgesShown(edges, edgeViews, edgeRows, flags[o := flag])
          <==> Plain(value) && FlagsKept(edgeRows, flags, flags[o := flag])
    {
      assert |ins| == |outs| == |flags| == |nodes0| == |views0|;
      hide NodesShown, EdgesShown, FlagsKept, Carries;
      ShownStep(nodes0, views0, ins, outs, flags, o, value, i, d, flag);
      ShownIff(edges, edgeViews, edgeRows, flags, flags[o := flag]);
    }

    /** Overwriting a node that is in the table: its degrees and flag first, then the record. */
    method Overwrite(ordinal: nat, value: Node) returns (outcome: Outcome)
      requires Coherent() && ordinal < |nodes| && nodes[ordinal].id == value.id
      modifies this`cache, this`nodeRows, this`dirty, this`nodes, this`nodeViews, indegree, outdegree, cyclic
      ensures Coherent() && outcome == if cyclic == null then Done
          else FlagsOutcome(value.fields, ordinal, cyclic.Length)
      ensures nodes == if outcome == Done then old(nodes)[ordinal := value] else old(nodes)
      ensures nodeViews == if outcome == Done then old(nodeViews)[ordinal := value] else old(nodeViews)
      ensures cyclic != null ==> indegree[..] == old(InsAfter(outcome, ordinal, value.fields))
      ensures cyclic != null ==> outdegree[..] == old(OutsAfter(outcome, ordinal, value.fields))
      ensures cyclic != null ==> cyclic[..] == old(FlagsAfter(outcome, ordinal, value.fields))
      ensures outcome == Done ==> NodeKey(ordinal) in cache.data && cache.data[NodeKey(ordinal)] == NodeRecord(value)
      ensures old(Readable()) ==> (Readable() <==> old(PutKeepsReads(outcome, ordinal, value)))
    {
      hide TablesHold, CacheHolds, IdsHold, InOrder, CacheShows, NodesShown, EdgesShown, FlagsKept, Plain;
      if cyclic != null {
        ShownWithArrays();
        outcome := OverwriteFlags(ordinal, value);
        if outcome != Done { return; }
        StoreNode(ordinal, value);
        ShownWithArrays();
        if old(ViewsHold()) {
          PutShown(old(nodes), old(nodeViews), old(indegree[..]), old(outdegree[..]), old(cyclic[..]), ordinal, value,
                   CountAt(value.fields, "in_degree").value, CountAt(value.fields, "out_degree").value,
                   Truthy(value.fields["in_cycle"]));
        }
      } else {
        StoreNode(ordinal, value);
      }
      return Done;
    }

    lemma ProcessedMeans()
      requires Processed()
      ensures cyclic != null && indegree != null && outdegree != null && cyclic.Length == |nodes|
      ensures AllEndsKnown(nodes, edges)
      ensures nodeViews == FinalNodes(nodes, edges) && edgeViews == FinalEdges(nodes, edges)
      ensures cycles == FinalCycles(nodes, edges) && cyclicCount == TotalSize(cycles) && FlagsList(cyclic[..], cycles)
      ensures NodesShown(nodes, nodeViews, indegree[..], outdegree[..], cyclic[..])
    {
      hide Coherent, CacheShows, NodesShown, EdgesShown, FinalNodes, FinalEdges, FinalCycles, TotalSize, FlagsList;
    }

    /** The final degrees and flag of a node are those in the arrays. */
    lemma FinalCounts(nodes0: seq<Node>, ins: seq<nat>, outs: seq<nat>, flags: seq<bool>, o: nat)
      requires AllEndsKnown(nodes0, edges) && NodesShown(nodes0, FinalNodes(nodes0, edges), ins, outs, flags)
      requires o < |nodes0|
      ensures var rows := Rows(nodes0, edges);
        InDegree(rows, o) == ins[o] && |Successors(rows, o)| == outs[o]
          && InComps(FinalCycles(nodes0, edges), o) == flags[o]
    {
      hide Rows, InDegree, Successors, InComps, FinalCycles, DecorateNode;
      var rows := Rows(nodes0, edges);
      CountsDiffer(nodes0[o], InDegree(rows, o), |Successors(rows, o)|, InComps(FinalCycles(nodes0, edges), o), ins[o],
        outs[o], flags[o]);
    }

    lemma OwnIsPlain(value: Node, ins: nat, outs: nat, flag: bool)
      requires Carries(value, ins, outs, flag)
      ensures Plain(value) && Truthy(value.fields["in_cycle"]) == flag
    {
    }

    lemma KeptSame(rows: seq<EdgeRow>, flags: seq<bool>)
      ensures FlagsKept(rows, flags, flags)
    {
    }

    lemma DecoratedAfterNode(nodes0: seq<Node>, views0: seq<Node>, ins: seq<nat>, outs: seq<nat>, flags: seq<bool>,
                             o: nat, value: Node)
      requires AllEndsKnown(nodes0, edges) && views0 == FinalNodes(nodes0, edges)
      requires edgeViews == FinalEdges(nodes0, edges)
      requires NodesShown(nodes0, views0, ins, outs, flags) && o < |nodes0| && value.id == nodes0[o].id
      requires nodes == nodes0[o := value] && nodeViews == views0[o := value]
      ensures AllEndsKnown(nodes, edges) && FinalCycles(nodes, edges) == FinalCycles(nodes0, edges)
      ensures o < |ins| == |outs| == |flags| == |nodes| && (Decorated() <==> Carries(value, ins[o], outs[o], flags[o]))
    {
      FinalAfterNode(nodes0, edges, o, value);
      FinalCounts(nodes0, ins, outs, flags, o);
      assert |ins| == |outs| == |flags| == |nodes0|;
      hide Rows, InDegree, Successors, InComps, FinalCycles, FinalNodes, FinalEdges, NodesShown, DecorateNode;
      hide AllEndsKnown;
      var final := FinalNodes(nodes0, edges)[o := DecorateNode(value, ins[o], outs[o], flags[o])];
      assert FinalNodes(nodes, edges) == final;
      assert nodeViews[o] == value && final[o] == DecorateNode(value, ins[o], outs[o], flags[o]);
    }

    lemma ProcessedIff()
      ensures Processed() <==> Readable() && Results()
    {
      hide Readable, Results;
    }

    lemma ResultsIff()
      requires cyclic != null && cyclic.Length == |nodes| && AllEndsKnown(nodes, edges)
      requires cycles == FinalCycles(nodes, edges) && cyclicCount == TotalSize(cycles)
      ensures Results() <==> Decorated() && FlagsList(cyclic[..], cycles)
    {
      hide Decorated, FlagsList, TotalSize, FinalCycles;
    }

    lemma ResultsAfter(flags: seq<bool>, now: seq<bool>, value: Node, i: nat, d: nat, flag: bool)
      requires AllEndsKnown(nodes, edges) && cycles == FinalCycles(nodes, edges) && cyclicCount == TotalSize(cycles)
      requires cyclic != null && cyclic[..] == now && |now| == |nodes| && FlagsList(flags, cycles)
      requires Decorated() <==> Carries(value, i, d, flag)
      requires Carries(value, i, d, flag) ==> Plain(value) && now == flags
      requires Readable() <==> Plain(value) && FlagsKept(edgeRows, flags, now)
      ensures Processed() <==> Carries(value, i, d, flag)
    {
      hide *;
      ResultsIff();
      ProcessedIff();
      KeptSame(edgeRows, flags);
    }

    /** Overwritten with its own degrees and flag, and only then, a node leaves the results what they were. */
    lemma ResultsAfterNode(nodes0: seq<Node>, views0: seq<Node>, ins: seq<nat>, outs: seq<nat>, flags: seq<bool>,
                           now: seq<bool>, o: nat, value: Node)
      requires AllEndsKnown(nodes0, edges) && views0 == FinalNodes(nodes0, edges)
      requires edgeViews == FinalEdges(nodes0, edges)
      requires cycles == FinalCycles(nodes0, edges) && cyclicCount == TotalSize(cycles) && FlagsList(flags, cycles)
      requires NodesShown(nodes0, views0, ins, outs, flags) && o < |nodes0| && value.id == nodes0[o].id
      requires nodes == nodes0[o := value] && nodeViews == views0[o := value] && "in_cycle" in value.fields
      requires cyclic != null && cyclic[..] == now == flags[o := Truthy(value.fields["in_cycle"])]
      requires Readable() <==> Plain(value) && FlagsKept(edgeRows, flags, now)
      ensures o < |ins| == |outs| == |flags| && (Processed() <==> Carries(value, ins[o], outs[o], flags[o]))
    {
      hide *;
      DecoratedAfterNode(nodes0, views0, ins, outs, flags, o, value);
      if Carries(value, ins[o], outs[o], flags[o]) { OwnIsPlain(value, ins[o], outs[o], flags[o]); }
      ResultsAfter(flags, now, value, ins[o], outs[o], flags[o]);
    }

    /** A node carries the degrees and the flag it has. */
    ghost predicate OwnFlags(ordinal: nat, value: Node)
      requires ArraysHold()
      reads this`nodes, this`indegree, this`outdegree, this`cyclic, indegree, outdegree, cyclic
    {
      && cyclic != null && ordinal < cyclic.Length
      && Carries(value, indegree[ordinal], outdegree[ordinal], cyclic[ordinal])
    }

    /** A node that is in the table, overwritten if its identity stays and its fields can be written. */
    method PutRecord(ordinal: nat, value: Node) returns (outcome: Outcome)
      requires Coherent()
      modifies this`cache, this`nodeRows, this`dirty, this`nodes, this`nodeViews, indegree, outdegree, cyclic
      ensures Coherent() && outcome == old(PutOutcome(ordinal, value))
      ensures nodes == if outcome == Done then old(nodes)[ordinal := value] else old(nodes)
      ensures nodeViews == if outcome == Done then old(nodeViews)[ordinal := value] else old(nodeViews)
      ensures cyclic != null ==> indegree[..] == old(InsAfter(outcome, ordinal, value.fields))
      ensures cyclic != null ==> outdegree[..] == old(OutsAfter(outcome, ordinal, value.fields))
      ensures cyclic != null ==> cyclic[..] == old(FlagsAfter(outcome, ordinal, value.fields))
      ensures outcome == Done ==> NodeKey(ordinal) in cache.data && cache.data[NodeKey(ordinal)] == NodeRecord(value)
      ensures outcome == Done ==> old(nodes)[ordinal].id == value.id
      ensures old(Readable()) ==> (Readable() <==> old(PutKeepsReads(outcome, ordinal, value)))
    {
      hide TablesHold, CacheHolds, IdsHold, InOrder, ViewsHold, CacheShows, FlagsKept, Plain;
      hide OrderedDict.Put, OrderedDict.Trimmed;
      var found := GetNode(ordinal);
      if found.NoRecord? { return MissingNode; }
      if found.OutOfRange? { return FlagsOutOfRange; }
      if found.value.id != value.id { return IdentityDiffers; }
      outcome := Overwrite(ordinal, value);
    }

    lemma DoneMeans(ordinal: nat, value: Node)
      requires Coherent()
      ensures PutOutcome(ordinal, value) == Done && cyclic != null ==>
          ordinal < cyclic.Length && "in_cycle" in value.fields
    {
    }

    /** Overwrite the record of a node: in the cache and, after the final pass, in the arrays. */
    method PutNode(ordinal: nat, value: Node) returns (outcome: Outcome)
      requires Coherent()
      modifies this`cache, this`nodeRows, this`dirty, this`nodes, this`nodeViews, indegree, outdegree, cyclic
      ensures Coherent() && outcome == old(PutOutcome(ordinal, value))
      ensures nodes == if outcome == Done then old(nodes)[ordinal := value] else old(nodes)
      ensures nodeViews == if outcome == Done then old(nodeViews)[ordinal := value] else old(nodeViews)
      ensures cyclic != null ==> indegree[..] == old(InsAfter(outcome, ordinal, value.fields))
      ensures cyclic != null ==> outdegree[..] == old(OutsAfter(outcome, ordinal, value.fields))
      ensures cyclic != null && outcome == Done ==>
          cyclic[..] == old(cyclic[..])[ordinal := Truthy(value.fields["in_cycle"])]
      ensures cyclic != null && outcome != Done ==> cyclic[..] == old(cyclic[..])
      ensures outcome == Done ==> NodeKey(ordinal) in cache.data && cache.data[NodeKey(ordinal)] == NodeRecord(value)
      ensures old(Readable()) ==> (Readable() <==> old(PutKeepsReads(outcome, ordinal, value)))
      ensures old(Processed()) && outcome == Done ==> (Processed() <==> old(OwnFlags(ordinal, value)))
    {
      hide Readable, Results, InsAfter, OutsAfter, FinalNodes, FinalEdges, FinalCycles, TotalSize, FlagsList;
      hide NodesShown, Carries, Plain, FlagsKept, AllEndsKnown;
      DoneMeans(ordinal, value);
      if Processed() { ProcessedMeans(); }
      outcome := PutRecord(ordinal, value);
      if outcome == Done && old(Processed()) {
        ResultsAfterNode(old(nodes), old(nodeViews), old(indegree[..]), old(outdegree[..]), old(cyclic[..]),
          cyclic[..], ordinal, value);
      }
    }

    // ---------- inserting nodes ----------

    method InsertRow(key: string, value: Node)
      requires TablesHold() && Ordinal(nodes, key) == |nodes| && value.id == key
      modifies this`nodeRows, this`nodes, this`dirty
      ensures TablesHold() && dirty == old(dirty) + {NodeKey(|old(nodes)|)}
      ensures nodes == old(nodes) + [value] && |nodeRows| == |nodes|
    {
      dirty := dirty + {NodeKey(|nodeRows|)};
      nodeRows := nodeRows + [NodeRow(key, None)];
      nodes := nodes + [value];
    }

    /** A new row whose payload is still to be written. */
    method Insert(key: string, value: Node)
      requires TablesHold() && CacheHolds(None) && IdsHold()
      requires Ordinal(nodes, key) == |nodes| == |nodeViews| && value.id == key
      modifies this`nodeRows, this`nodes, this`nodeViews, this`dirty
      ensures TablesHold() && CacheHolds(Some(NodeKey(|old(nodes)|))) && IdsHold()
      ensures nodes == old(nodes) + [value] && nodeViews == old(nodeViews) + [value] && |nodeRows| == |nodes|
      ensures old(CacheShows()) ==> Shows(cache.data, Some(NodeKey(|old(nodes)|)))
    {
      hide TablesHold;
      InsertRow(key, value);
      nodeViews := nodeViews + [value];
    }

    lemma MoreIds(was: seq<Node>, value: Node, cycles: seq<seq<nat>>)
      requires InOrder(Ids(was), cycles)
      ensures InOrder(Ids(was + [value]), cycles)
    {
    }

    /** A node of a new identity goes to the end of the table. After the final pass the arrays have no
        entry for it: it can be read while it is cached, and not once it has left the cache. */
    method InsertNode(key: string, value: Node)
      requires Coherent() && Ordinal(nodes, key) == |nodes| && value.id == key
      modifies this`cache, this`nodeRows, this`dirty, this`ids, this`nodes, this`nodeViews
      ensures Coherent() && nodes == old(nodes) + [value] && nodeViews == old(nodeViews) + [value]
      ensures NodeKey(|old(nodes)|) in cache.data && cache.data[NodeKey(|old(nodes)|)] == NodeRecord(value)
      ensures old(Readable()) ==> (Readable() <==> cyclic == null)
    {
      hide TablesHold, CacheHolds, IdsHold, InOrder, CacheShows, Shows, Ordinal, OrderedDict.Put, OrderedDict.Trimmed;
      hide OrderedDict.Valid;
      CoherentParts();
      ViewLengths();
      ghost var was := cache;
      var ordinal := |nodeRows|;
      Insert(key, value);
      RememberId(key, ordinal);
      Remember(NodeKey(ordinal), NodeRecord(value));
      MoreIds(old(nodes), value, cycles);
      PartsCoherent(was, NodeKey(ordinal), NodeRecord(value));
      if old(CacheShows()) { RememberShows(was, NodeKey(ordinal), NodeRecord(value)); }
    }

    /** How the assignment of a record to an identity ends. */
    ghost function SetOutcome(key: string, value: Node): (r: Outcome)
      requires CacheHolds(None) && ArraysHold()
      reads this`nodes, this`edges, this`cache, this`dirty, this`indegree, this`outdegree, this`cyclic, indegree,
          outdegree, cyclic
    {
      if value.id != key then IdentityDiffers
      else if Ordinal(nodes, key) == |nodes| then Done
      else PutOutcome(Ordinal(nodes, key), value)
    }

    /** Whether reads stay right after it: an insertion is safe before the final pass only. */
    ghost predicate SetKeepsReads(key: string, value: Node)
      requires CacheHolds(None) && ArraysHold()
      reads this`nodes, this`edges, this`edgeRows, this`cache, this`dirty
      reads this`indegree, this`outdegree, this`cyclic, indegree, outdegree, cyclic
    {
      value.id == key ==>
        if Ordinal(nodes, key) == |nodes| then cyclic == null
        else PutKeepsReads(SetOutcome(key, value), Ordinal(nodes, key), value)
    }

    lemma SetWhileValid(key: string, value: Node)
      requires Valid() && value.id == key
      ensures SetOutcome(key, value) == Done
    {
      hide TablesHold, CacheHolds, IdsHold, InOrder, CacheShows;
      ReadableNode(Ordinal(nodes, key));
    }

    /** Assign a record to an identity: overwrite the node that has it, insert one if none has. */
    method SetNode(key: string, value: Node) returns (outcome: Outcome)
      requires Coherent()
      modifies this`cache, this`nodeRows, this`dirty, this`ids, this`nodes, this`nodeViews, indegree, outdegree, cyclic
      ensures Coherent() && outcome == old(SetOutcome(key, value))
      ensures nodes == if outcome == Done then WithNode(old(nodes), value) else old(nodes)
      ensures nodeViews == if outcome != Done then old(nodeViews) else
                           if Ordinal(old(nodes), key) < |old(nodes)|
                             then old(nodeViews)[Ordinal(old(nodes), key) := value] else old(nodeViews) + [value]
      ensures cyclic != null ==> indegree[..] == old(InsAfter(outcome, Ordinal(nodes, key), value.fields))
      ensures cyclic != null ==> outdegree[..] == old(OutsAfter(outcome, Ordinal(nodes, key), value.fields))
      ensures cyclic != null ==> cyclic[..] == old(FlagsAfter(outcome, Ordinal(nodes, key), value.fields))
      ensures outcome == Done ==>
        && NodeKey(Ordinal(old(nodes), key)) in cache.data
        && cache.data[NodeKey(Ordinal(old(nodes), key))] == NodeRecord(value)
      ensures old(Readable()) ==> (Readable() <==> old(SetKeepsReads(key, value)))
      ensures old(Valid()) ==> Valid() && (outcome == Done <==> value.id == key)
    {
      hide TablesHold, CacheHolds, IdsHold, InOrder, CacheShows, ViewsHold, PutOutcome, Plain, FlagsKept, Ordinal;
      hide FlagsOutcome, Truthy, CountAt, DecorateNode, ReadNode, FreshNode, Ids;
      if value.id != key { return IdentityDiffers; }
      if Valid() { SetWhileValid(key, value); }
      var found := NodeOrdinal(key);
      if found.Some? {
        outcome := PutRecord(found.value, value);
      } else {
        InsertNode(key, value);
        outcome := Done;
      }
    }

    // ---------- writing edges ----------

    /** The ordinals a row of the edge table stores. */
    method Resolve(value: Edge) returns (source: Option<nat>, target: Option<nat>, cell: Option<nat>, ok: bool)
      requires Coherent()
      modifies this`ids
      ensures Coherent() && (old(Readable()) ==> Readable())
      ensures ok <==> EndsKnown(nodes, value) && (value.cell == "" || Known(nodes, value.cell))
      ensures ok ==> source == Some(Ordinal(nodes, value.source)) && target == Some(Ordinal(nodes, value.target))
    {
      hide Coherent, Readable;
      source, target, cell, ok := None, None, None, false;
      source := NodeOrdinal(value.source);
      if source.None? { return; }
      assert nodes[source.value].id == value.source;
      target := NodeOrdinal(value.target);
      if target.None? { return; }
      assert nodes[target.value].id == value.target;
      if value.cell != "" {
        cell := NodeOrdinal(value.cell);
        if cell.None? { return; }
        assert nodes[cell.value].id == value.cell;
      }
      ok := true;
    }

    /** Two rows clash exactly when the edges they stand for do. */
    lemma ConflictIsSameEdge(k: nat, value: Edge)
      requires TablesHold() && k < |edges| && EndsKnown(nodes, value)
      ensures Conflicts(edgeRows[k], Ordinal(nodes, value.source), Ordinal(nodes, value.target), value)
          <==> SameEdge(edges[k], value)
    {
      assert RowHolds(edgeRows[k], edges[k]);
      OrdinalOf(nodes, edgeRows[k].source);
      OrdinalOf(nodes, edgeRows[k].target);
    }

    lemma ConflictsAreSameEdges(source: nat, target: nat, value: Edge)
      requires TablesHold() && EndsKnown(nodes, value)
      requires source == Ordinal(nodes, value.source) && target == Ordinal(nodes, value.target)
      ensures |edgeRows| == |edges|
      ensures forall k :: 0 <= k < |edges| ==>
          (Conflicts(edgeRows[k], source, target, value) <==> SameEdge(edges[k], value))
    {
      forall k: nat | k < |edges|
        ensures Conflicts(edgeRows[k], source, target, value) <==> SameEdge(edges[k], value)
      {
        ConflictIsSameEdge(k, value);
      }
    }

    /** The row a known edge is written to. */
    ghost function RowOf(value: Edge, cell: Option<nat>): (r: EdgeRow)
      reads this`nodes
    {
      EdgeRow(Ordinal(nodes, value.source), Ordinal(nodes, value.target), value.role, value.argIndex, value.ref,
              cell, value.cell, value.extra)
    }

    lemma RowOfHolds(value: Edge, cell: Option<nat>)
      requires EndsKnown(nodes, value)
      ensures RowHolds(RowOf(value, cell), value)
    {
    }

    method WriteRow(ordinal: nat, row: EdgeRow, value: Edge)
      requires TablesHold() && ordinal <= |edges| && RowHolds(row, value)
      requires forall k :: 0 <= k < |edges| && k != ordinal ==> !SameEdge(edges[k], value)
      modifies this`edgeRows, this`edges
      ensures TablesHold()
      ensures edges == if ordinal < |old(edges)| then old(edges)[ordinal := value] else old(edges) + [value]
      ensures edgeRows == if ordinal < |old(edges)| then old(edgeRows)[ordinal := row] else old(edgeRows) + [row]
    {
      hide DistinctIds;
      if ordinal < |edgeRows| {
        edgeRows := edgeRows[ordinal := row];
        edges := edges[ordinal := value];
      } else {
        edgeRows := edgeRows + [row];
        edges := edges + [value];
      }
    }

    method WriteEdge(ordinal: nat, row: EdgeRow, value: Edge)
      requires TablesHold() && CacheHolds(None) && ordinal <= |edges| == |edgeViews| && RowHolds(row, value)
      requires forall k :: 0 <= k < |edges| && k != ordinal ==> !SameEdge(edges[k], value)
      modifies this`edgeRows, this`edges, this`edgeViews
      ensures TablesHold() && CacheHolds(Some(EdgeKey(ordinal))) && Fits(EdgeKey(ordinal), EdgeRecord(value))
      ensures edges == if ordinal < |old(edges)| then old(edges)[ordinal := value] else old(edges) + [value]
      ensures edgeRows == if ordinal < |old(edges)| then old(edgeRows)[ordinal := row] else old(edgeRows) + [row]
      ensures edgeViews == if ordinal < |old(edges)| then old(edgeViews)[ordinal := value] else old(edgeViews) + [value]
      ensures old(CacheShows()) ==> Shows(cache.data, Some(EdgeKey(ordinal)))
    {
      hide TablesHold, RowHolds, SameEdge;
      WriteRow(ordinal, row, value);
      edgeViews := if ordinal < |edgeViews| then edgeViews[ordinal := value] else edgeViews + [value];
    }

    lemma EdgeIsClean(key: Key)
      requires key.EdgeKey? && CacheHolds(Some(key))
      ensures key !in dirty
    {
    }

    /** Write an edge to its row and to the cache. */
    method StoreEdge(ordinal: nat, row: EdgeRow, value: Edge)
      requires Coherent() && ordinal <= |edges| && RowHolds(row, value)
      requires forall k :: 0 <= k < |edges| && k != ordinal ==> !SameEdge(edges[k], value)
      modifies this`cache, this`nodeRows, this`dirty, this`edgeRows, this`edges, this`edgeViews
      ensures Coherent() && (old(CacheShows()) ==> CacheShows())
      ensures edges == if ordinal < |old(edges)| then old(edges)[ordinal := value] else old(edges) + [value]
      ensures edgeRows == if ordinal < |old(edges)| then old(edgeRows)[ordinal := row] else old(edgeRows) + [row]
      ensures edgeViews == if ordinal < |old(edges)| then old(edgeViews)[ordinal := value] else old(edgeViews) + [value]
      ensures cache == old(cache).Put(EdgeKey(ordinal), EdgeRecord(value)).Trimmed(capacity)
    {
      hide TablesHold, CacheHolds, IdsHold, ArraysHold, InOrder, RowHolds, SameEdge, CacheShows, Shows, Fits;
      hide OrderedDict.Put, OrderedDict.Trimmed, OrderedDict.Valid;
      CoherentParts();
      ghost var was := cache;
      WriteEdge(ordinal, row, value);
      EdgeIsClean(EdgeKey(ordinal));
      Remember(EdgeKey(ordinal), EdgeRecord(value));
      PartsCoherent(was, EdgeKey(ordinal), EdgeRecord(value));
      if old(CacheShows()) { RememberShows(was, EdgeKey(ordinal), EdgeRecord(value)); }
    }

    method StoreRow(ordinal: nat, source: nat, target: nat, cell: Option<nat>, value: Edge)
      requires Coherent() && ordinal <= |edges| && EndsKnown(nodes, value)
      requires source == Ordinal(nodes, value.source) && target == Ordinal(nodes, value.target)
      requires forall k :: 0 <= k < |edges| && k != ordinal ==> !SameEdge(edges[k], value)
      modifies this`cache, this`nodeRows, this`dirty, this`edgeRows, this`edges, this`edgeViews
      ensures Coherent() && (old(CacheShows()) ==> CacheShows())
      ensures edges == if ordinal < |old(edges)| then old(edges)[ordinal := value] else old(edges) + [value]
      ensures edgeRows == if ordinal < |old(edges)| then old(edgeRows)[ordinal := RowOf(value, cell)]
          else old(edgeRows) + [RowOf(value, cell)]
      ensures edgeViews == if ordinal < |old(edges)| then old(edgeViews)[ordinal := value] else old(edgeViews) + [value]
      ensures cache == old(cache).Put(EdgeKey(ordinal), EdgeRecord(value)).Trimmed(capacity)
    {
      RowOfHolds(value, cell);
      ViewLengths();
      hide TablesHold, CacheHolds, IdsHold, InOrder, RowHolds, SameEdge, EndsKnown, Ordinal, CacheShows;
      hide OrderedDict.Put, OrderedDict.Trimmed;
      var row := EdgeRow(source, target, value.role, value.argIndex, value.ref, cell, value.cell, value.extra);
      StoreEdge(ordinal, row, value);
    }

    method AppendEdge(value: Edge) returns (outcome: Outcome)
      requires Coherent() && cyclic == null
      modifies this`cache, this`nodeRows, this`dirty, this`ids, this`edgeRows, this`edges, this`edgeViews
      ensures Coherent() && (old(Readable()) ==> Readable()) && outcome in {Done, MissingNode}
      ensures outcome == Done <==> EndsKnown(nodes, value) && (value.cell == "" || Known(nodes, value.cell))
      ensures edges == if outcome == Done then WithEdge(old(edges), value) else old(edges)
    {
      hide TablesHold, CacheHolds, IdsHold, InOrder, RowHolds, Conflicts, SameEdge, Known, EndsKnown, Ordinal, RowOf;
      hide CacheShows;
      var source, target, cell, ok := Resolve(value);
      if !ok { return MissingNode; }
      var clash := exists k :: 0 <= k < |edgeRows| && Conflicts(edgeRows[k], source.value, target.value, value);
      ConflictsAreSameEdges(source.value, target.value, value);
      if !clash { StoreRow(|edgeRows|, source.value, target.value, cell, value); }
      return Done;
    }

    /** Append an edge unless it repeats one; nothing is appended after the final pass. */
    method AddEdge(value: Edge) returns (outcome: Outcome)
      requires Coherent()
      modifies this`cache, this`nodeRows, this`dirty, this`ids, this`edgeRows, this`edges, this`edgeViews
      ensures Coherent() && (old(Readable()) ==> Readable()) && (old(Valid()) ==> Valid())
      ensures outcome in {Done, MissingNode, AfterFinalPass} && (outcome == AfterFinalPass <==> old(cyclic) != null)
      ensures outcome == Done
          <==> old(cyclic) == null && EndsKnown(nodes, value) && (value.cell == "" || Known(nodes, value.cell))
      ensures edges == if outcome == Done then WithEdge(old(edges), value) else old(edges)
      ensures edges ==
        if outcome != Done || exists e ::
            e in old(edges) && e.source == value.source && e.target == value.target
            && e.role == value.role && e.argIndex == value.argIndex && e.ref == value.ref
        then old(edges) else old(edges) + [value]
    {
      WithEdgeIs(edges, value);
      hide TablesHold, CacheHolds, IdsHold, ViewsHold, CacheShows, WithEdge, Known, EndsKnown;
      if cyclic != null { return AfterFinalPass; }
      outcome := AppendEdge(value);
    }

    /** The flag an edge gets from its ends. */
    ghost predicate EndsFlag(value: Edge)
      reads this`nodes, this`cyclic, cyclic
    {
      cyclic != null && BothSet(cyclic[..], Ordinal(nodes, value.source), Ordinal(nodes, value.target)) == Some(true)
    }

    /** Whether reads stay right after an edge is overwritten: after the final pass the flag it carries
        must be the one its ends give it, which is what a read returns once it has left the cache. */
    ghost predicate EdgeKeepsReads(value: Edge)
      reads this`nodes, this`cyclic, cyclic
    {
      cyclic != null ==> value == DecorateEdge(value, EndsFlag(value))
    }

    lemma EndsInTable(value: Edge)
      requires EndsKnown(nodes, value)
      ensures Ordinal(nodes, value.source) < |nodes| && Ordinal(nodes, value.target) < |nodes|
    {
    }

    lemma EdgePutShown(edges0: seq<Edge>, views0: seq<Edge>, rows0: seq<EdgeRow>, ordinal: nat, cell: Option<nat>,
                       value: Edge)
      requires Coherent() && EndsKnown(nodes, value) && ordinal < |edges0| == |views0| == |rows0|
      requires edges == edges0[ordinal := value] && edgeViews == views0[ordinal := value]
      requires edgeRows == rows0[ordinal := RowOf(value, cell)]
      requires RowsShown(edges0, views0, rows0)
      ensures ViewsHold() <==> EdgeKeepsReads(value)
    {
      assert cyclic != null ==> cyclic.Length == |nodes|;
      hide TablesHold, CacheHolds, IdsHold, InOrder, NodesShown, EdgesShown, Ordinal;
      EndsInTable(value);
      if cyclic != null { EdgeShownIff(edges0, views0, rows0, cyclic[..], ordinal, RowOf(value, cell), value); }
    }

    /** An edge overwritten if its ends are known and it repeats no other edge. */
    method ReplaceEdge(ordinal: nat, value: Edge) returns (outcome: Outcome)
      requires Coherent() && ordinal < |edges|
      modifies this`cache, this`nodeRows, this`dirty, this`ids, this`edgeRows, this`edges, this`edgeViews
      ensures Coherent() && outcome in {Done, MissingNode, Duplicate}
      ensures outcome == MissingNode <==> !(EndsKnown(nodes, value) && (value.cell == "" || Known(nodes, value.cell)))
      ensures outcome == Duplicate <==> outcome != MissingNode && RepeatsOther(old(edges), ordinal, value)
      ensures edges == if outcome == Done then old(edges)[ordinal := value] else old(edges)
      ensures edgeViews == if outcome == Done then old(edgeViews)[ordinal := value] else old(edgeViews)
      ensures outcome == Done ==> cache == old(cache).Put(EdgeKey(ordinal), EdgeRecord(value)).Trimmed(capacity)
      ensures old(Readable()) ==> (Readable() <==> (outcome == Done ==> EdgeKeepsReads(value)))
      ensures old(Valid()) ==> Valid()
    {
      hide TablesHold, CacheHolds, IdsHold, InOrder, RowHolds, Conflicts, SameEdge, RowsShown, Known, EndsKnown;
      hide Ordinal, RowOf, CacheShows, EndsFlag;
      hide OrderedDict.Put, OrderedDict.Trimmed;
      var source, target, cell, ok := Resolve(value);
      if !ok { return MissingNode; }
      var clash := exists k ::
        0 <= k < |edgeRows| && k != ordinal && Conflicts(edgeRows[k], source.value, target.value, value);
      ConflictsAreSameEdges(source.value, target.value, value);
      if clash { return Duplicate; }
      StoreRow(ordinal, source.value, target.value, cell, value);
      if old(Readable()) { EdgePutShown(old(edges), old(edgeViews), old(edgeRows), ordinal, cell, value); }
      return Done;
    }

    predicate SameEnds(a: Edge, b: Edge) { a.source == b.source && a.target == b.target }

    lemma DecoratedAfterEdge(edges0: seq<Edge>, views0: seq<Edge>, flags: seq<bool>, o: nat, value: Edge)
      requires AllEndsKnown(nodes, edges0) && views0 == FinalEdges(nodes, edges0)
      requires nodeViews == FinalNodes(nodes, edges0)
      requires FlagsList(flags, FinalCycles(nodes, edges0)) && cyclic != null && cyclic[..] == flags
      requires |flags| == |nodes|
      requires o < |edges0| && SameEnds(edges0[o], value) && edges == edges0[o := value]
      requires edgeViews == views0[o := value]
      ensures AllEndsKnown(nodes, edges) && FinalCycles(nodes, edges) == FinalCycles(nodes, edges0)
      ensures Decorated() <==> EdgeKeepsReads(value)
    {
      FinalAfterEdge(nodes, edges0, o, value);
      assert EndsKnown(nodes, edges0[o]);
      var row := Rows(nodes, edges0)[o];
      var final := views0[o := DecorateEdge(value, EndsFlag(value))];
      assert EndsFlag(value) <==> flags[row.0] && flags[row.1];
      hide Rows, InComps, FinalCycles, FinalNodes, FinalEdges, DecorateEdge, AllEndsKnown, EndsFlag;
      assert edgeViews[o] == value && final[o] == DecorateEdge(value, EndsFlag(value));
      assert FinalEdges(nodes, edges) == final;
    }

    /** Overwritten at the same ends and with their flag, and only then, an edge leaves the results what they were. */
    lemma ResultsAfterEdge(edges0: seq<Edge>, views0: seq<Edge>, flags: seq<bool>, o: nat, value: Edge)
      requires AllEndsKnown(nodes, edges0) && views0 == FinalEdges(nodes, edges0)
      requires nodeViews == FinalNodes(nodes, edges0)
      requires cycles == FinalCycles(nodes, edges0) && cyclicCount == TotalSize(cycles) && FlagsList(flags, cycles)
      requires cyclic != null && cyclic[..] == flags && |flags| == |nodes| && o < |edges0| && SameEnds(edges0[o], value)
      requires edges == edges0[o := value] && edgeViews == views0[o := value]
      requires Readable() <==> EdgeKeepsReads(value)
      ensures Processed() <==> EdgeKeepsReads(value)
    {
      hide *;
      DecoratedAfterEdge(edges0, views0, flags, o, value);
      ResultsIff();
      ProcessedIff();
    }

    /** Overwrite the record of an edge; the table refuses a change that would repeat another edge. */
    method PutEdge(ordinal: nat, value: Edge) returns (outcome: Outcome)
      requires Coherent() && ordinal < |edges|
      modifies this`cache, this`nodeRows, this`dirty, this`ids, this`edgeRows, this`edges, this`edgeViews
      ensures Coherent() && outcome in {Done, MissingNode, Duplicate}
      ensures outcome == MissingNode <==> !(EndsKnown(nodes, value) && (value.cell == "" || Known(nodes, value.cell)))
      ensures outcome == Duplicate <==> outcome != MissingNode && RepeatsOther(old(edges), ordinal, value)
      ensures edges == if outcome == Done then old(edges)[ordinal := value] else old(edges)
      ensures edgeViews == if outcome == Done then old(edgeViews)[ordinal := value] else old(edgeViews)
      ensures outcome == Done ==> cache == old(cache).Put(EdgeKey(ordinal), EdgeRecord(value)).Trimmed(capacity)
      ensures old(Readable()) ==> (Readable() <==> (outcome == Done ==> EdgeKeepsReads(value)))
      ensures old(Valid()) ==> Valid()
      ensures old(Processed()) && outcome == Done && SameEnds(old(edges)[ordinal], value) ==>
          (Processed() <==> EdgeKeepsReads(value))
    {
      hide *;
      ProcessedIff();
      if Processed() { ProcessedMeans(); }
      outcome := ReplaceEdge(ordinal, value);
      if outcome == Done && old(Processed()) && SameEnds(old(edges)[ordinal], value) {
        ResultsAfterEdge(old(edges), old(edgeViews), cyclic[..], ordinal, value);
      }
    }

    // ---------- the final pass ----------

    method EdgeEnds() returns (rows: seq<(nat, nat)>)
      requires TablesHold()
      ensures rows == Rows(nodes, edges) && Within(rows, |nodes|) && AllEndsKnown(nodes, edges)
      ensures |edgeRows| == |rows|
      ensures forall k :: 0 <= k < |rows| ==> rows[k] == (edgeRows[k].source, edgeRows[k].target)
    {
      rows := seq(|edgeRows|, k requires 0 <= k < |edgeRows| reads this => (edgeRows[k].source, edgeRows[k].target));
      forall k: nat | k < |edges|
        ensures rows[k] == Rows(nodes, edges)[k] && rows[k].0 < |nodes| && rows[k].1 < |nodes|
        ensures EndsKnown(nodes, edges[k])
      {
        assert RowHolds(edgeRows[k], edges[k]);
        OrdinalOf(nodes, edgeRows[k].source);
        OrdinalOf(nodes, edgeRows[k].target);
      }
    }

    /** The rows are the ends of the edges, in order. */
    ghost predicate RowsMatch(rows: seq<(nat, nat)>)
      reads this`nodes, this`edges, this`edgeRows
    {
      && AllEndsKnown(nodes, edges) && rows == Rows(nodes, edges) && Within(rows, |nodes|)
      && |edgeRows| == |rows| && forall k :: 0 <= k < |rows| ==> rows[k] == (edgeRows[k].source, edgeRows[k].target)
    }

    ghost predicate FlagsMatch(rows: seq<(nat, nat)>, ins: array<nat>, outs: array<nat>, flags: array<bool>)
      reads this`nodes, this`edges, ins, outs, flags
    {
      && ins != outs && ins.Length == outs.Length == flags.Length == |nodes| && AllEndsKnown(nodes, edges)
      && (forall v :: 0 <= v < |nodes| ==> ins[v] == InDegree(rows, v) && outs[v] == |Successors(rows, v)|)
      && forall v :: 0 <= v < |nodes| ==> (flags[v] <==> InComps(FinalCycles(nodes, edges), v))
    }

    ghost method Decorate(rows: seq<(nat, nat)>)
      requires RowsMatch(rows)
      modifies this`nodeViews, this`edgeViews
      ensures Decorated()
    {
      hide Rows, FinalNodes, FinalEdges;
      nodeViews := FinalNodes(nodes, edges);
      edgeViews := FinalEdges(nodes, edges);
    }

    lemma EmptyCacheHolds()
      requires cache == OrderedDict([], map[]) && dirty == {}
      ensures CacheHolds(None) && CacheShows()
    {
    }

    lemma FlagsHold(rows: seq<(nat, nat)>)
      requires indegree != null && outdegree != null && cyclic != null
      requires RowsMatch(rows) && FlagsMatch(rows, indegree, outdegree, cyclic) && Decorated()
      ensures ViewsHold() && ArraysHold()
    {
      hide Rows, FinalCycles, InComps;
    }

    /** With the cache empty, adding the flags is all that changes for a reader. */
    method AddFlags(ghost rows: seq<(nat, nat)>, ins: array<nat>, outs: array<nat>, flags: array<bool>)
      requires TablesHold() && IdsHold() && dirty == {} && cache == OrderedDict([], map[])
      requires RowsMatch(rows) && FlagsMatch(rows, ins, outs, flags)
      modifies this`indegree, this`outdegree, this`cyclic, this`nodeViews, this`edgeViews
      ensures indegree == ins && outdegree == outs && cyclic == flags && Decorated()
      ensures CacheHolds(None) && CacheShows() && ViewsHold() && ArraysHold() && TablesHold() && IdsHold()
    {
      hide TablesHold, IdsHold, FinalCycles, InComps, Rows, CacheHolds, ViewsHold, FinalNodes, FinalEdges, Within;
      hide AllEndsKnown, RowsMatch, FlagsMatch, Decorated, CacheShows, ArraysHold;
      indegree, outdegree, cyclic := ins, outs, flags;
      Decorate(rows);
      EmptyCacheHolds();
      FlagsHold(rows);
    }

    method RowsOf() returns (rows: seq<(nat, nat)>)
      requires TablesHold()
      ensures RowsMatch(rows)
    {
      rows := EdgeEnds();
    }

    lemma WithinRows(rows: seq<(nat, nat)>)
      requires RowsMatch(rows)
      ensures Within(rows, |nodes|)
    {
    }

    lemma Analysed(rows: seq<(nat, nat)>, ins: array<nat>, outs: array<nat>, flags: array<bool>, found: seq<seq<nat>>)
      requires RowsMatch(rows) && WellFormed(Adjacency(rows, |nodes|)) && found == Cycles(Adjacency(rows, |nodes|))
      requires ins != outs && ins.Length == outs.Length == flags.Length == |nodes|
      requires forall v :: 0 <= v < |nodes| ==> ins[v] == InDegree(rows, v) && outs[v] == |Successors(rows, v)|
      requires forall v :: 0 <= v < |nodes| ==> (flags[v] <==> InComps(found, v))
      ensures FlagsMatch(rows, ins, outs, flags) && AllEndsKnown(nodes, edges) && found == FinalCycles(nodes, edges)
    {
      hide InComps, Cycles, Adjacency, WellFormed, Rows, FinalCycles;
      FinalCyclesAre(nodes, edges);
    }

    method AnalyseRows()
      returns (ins: array<nat>, outs: array<nat>, flags: array<bool>, found: seq<seq<nat>>, count: nat,
        ghost rows: seq<(nat, nat)>)
      requires TablesHold()
      ensures RowsMatch(rows) && FlagsMatch(rows, ins, outs, flags) && fresh(ins) && fresh(outs) && fresh(flags)
      ensures AllEndsKnown(nodes, edges) && found == FinalCycles(nodes, edges) && count == TotalSize(found)
    {
      SameLength();
      hide *;
      var ends := RowsOf();
      WithinRows(ends);
      ins, outs, flags, found, count := Analyse(|nodeRows|, ends);
      rows := ends;
      Analysed(rows, ins, outs, flags, found);
    }

    lemma NowProcessed()
      requires capacity >= 1 && TablesHold() && CacheHolds(None) && |cache.order| <= capacity && IdsHold()
      requires ArraysHold()
      requires |nodeViews| == |nodes| && |edgeViews| == |edges| && InOrder(Ids(nodes), cycles)
      requires CacheShows() && ViewsHold() && Results()
      ensures Processed()
    {
      hide TablesHold, CacheHolds, IdsHold, ArraysHold, CacheShows, ViewsHold, InOrder, Results;
    }

    lemma ResultsHold(rows: seq<(nat, nat)>, ins: array<nat>, outs: array<nat>, flags: array<bool>)
      requires FlagsMatch(rows, ins, outs, flags) && cyclic == flags && Decorated()
      requires cycles == FinalCycles(nodes, edges) && cyclicCount == TotalSize(cycles)
      ensures Results() && |nodeViews| == |nodes| && |edgeViews| == |edges| && InOrder(Ids(nodes), cycles)
    {
      FinalCyclesInOrder(nodes, edges);
      hide InComps, FinalCycles, FinalNodes, FinalEdges, TotalSize, InOrder;
    }

    /** Compute and publish degrees, flags and components. */
    method Publish()
      requires Coherent() && dirty == {} && cyclic == null
      modifies this
      ensures nodes == old(nodes) && edges == old(edges) && nodeRows == old(nodeRows) && edgeRows == old(edgeRows)
      ensures Processed() && fresh(indegree) && fresh(outdegree) && fresh(cyclic) && cache == OrderedDict([], map[])
    {
      hide *;
      CoherentParts();
      SameLength();
      cache := OrderedDict([], map[]);
      var ins, outs, flags, found, count, rows := AnalyseRows();
      AddFlags(rows, ins, outs, flags);
      cycles, cyclicCount := found, count;
      ResultsHold(rows, ins, outs, flags);
      NowProcessed();
    }

    /** The final pass: once, and only on a graph that 32-bit ordinals can address. */
    method Postprocess() returns (outcome: Outcome)
      requires Coherent()
      modifies this
      ensures Coherent() && (old(Readable()) ==> Readable())
      ensures nodes == old(nodes) && edges == old(edges)
      ensures outcome == TooManyNodes <==> |nodes| >= 0x1_0000_0000
      ensures outcome == Repeated <==> |nodes| < 0x1_0000_0000 && old(cyclic) != null
      ensures outcome in {Done, TooManyNodes, Repeated}
      ensures outcome == Done ==> Processed() && fresh(indegree) && fresh(outdegree) && fresh(cyclic)
      ensures outcome == Done ==> cache == OrderedDict([], map[])
      ensures outcome != Done ==> cyclic == old(cyclic) && cache == old(cache)
    {
      hide TablesHold, IdsHold, RowHolds, CacheHolds, ViewsHold, CacheShows, Results, InOrder;
      Flush();
      ViewLengths();
      if |nodeRows| >= 0x1_0000_0000 { return TooManyNodes; }
      if cyclic != null { return Repeated; }
      Publish();
      return Done;
    }

    // ---------- what the final pass found ----------

    method NamesOf(members: seq<nat>, ghost i: nat) returns (names: seq<string>)
      requires TablesHold() && InOrder(Ids(nodes), cycles) && i < |cycles| && members == cycles[i]
      ensures names == Names(Ids(nodes), members)
    {
      hide RowHolds;
      assert forall k :: 0 <= k < |members| ==> cycles[i][k] < |nodes|;
      names := seq(|members|, k requires 0 <= k < |members|
        && members[k] < |nodeRows| reads this => nodeRows[members[k]].id);
    }

    /** A component by its place, counted from the end if the index is negative. */
    method Cycle(index: int) returns (r: Option<seq<string>>)
      requires Coherent()
      ensures InOrder(Ids(nodes), cycles)
      ensures var i := if index < 0 then index + |cycles| else index;
        r == if 0 <= i < |cycles| then Some(Names(Ids(nodes), cycles[i])) else None
    {
      hide CacheHolds, IdsHold, ArraysHold, TablesHold, InOrder;
      var i := if index < 0 then index + |cycles| else index;
      if i < 0 || i >= |cycles| { return None; }
      var names := NamesOf(cycles[i], i);
      return Some(names);
    }

    /** An identity is that of a node the components list. */
    ghost predicate Listed(key: string)
      reads this`nodes, this`cycles
    {
      Ordinal(nodes, key) < |nodes| && InComps(cycles, Ordinal(nodes, key))
    }

    lemma FlagOf(key: string)
      requires Results()
      ensures cyclic != null && cyclic.Length == |nodes|
      ensures var o := Ordinal(nodes, key);
        if o < |nodes| then cyclic[o] <==> OnFinalCycle(nodes, edges, key) else !OnFinalCycle(nodes, edges, key)
    {
    }

    /** Whether a node is on a cycle, by its flag; an unknown identity is not. As long as the flags say
        what the components list, so does the answer. */
    method InCycle(key: string) returns (r: Read<bool>)
      requires Coherent() && cyclic != null
      modifies this`ids
      ensures Coherent() && (old(Readable()) ==> Readable()) && (old(Processed()) ==> Processed())
      ensures var o := Ordinal(nodes, key);
        r == if o == |nodes| then Got(false) else if o < cyclic.Length then Got(cyclic[o]) else OutOfRange
      ensures FlagsList(cyclic[..], cycles) && r.Got? ==> (r.value <==> Listed(key))
      ensures Processed() ==> r == Got(OnFinalCycle(nodes, edges, key))
    {
      hide TablesHold, CacheHolds, IdsHold, InOrder, InComps, ViewsHold, CacheShows, FinalCycles, Ordinal, TotalSize;
      hide Decorated;
      if Processed() { FlagOf(key); }
      var o := NodeOrdinal(key);
      if o.None? { return Got(false); }
      if o.value >= cyclic.Length { return OutOfRange; }
      return Got(cyclic[o.value]);
    }
  }
}
