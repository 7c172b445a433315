/** The records of the expression graph and what a construction step does to them,
    with no storage in sight: an ordered list of nodes and a de-duplicated list of edges. */
module GraphRecords {

  datatype Value = Null | Text(text: string) | Number(number: int) | Flag(flag: bool)

  /** `fields` holds everything but the identity. */
  datatype Node = Node(id: string, fields: map<string, Value>)

  /** `extra` holds what takes no part in de-duplication: operator, range text, sheet flag. */
  datatype Edge = Edge(source: string, target: string, role: string, argIndex: nat, ref: string,
                       cell: string, extra: map<string, Value>)

  predicate SameEdge(a: Edge, b: Edge) {
    a.source == b.source && a.target == b.target && a.role == b.role && a.argIndex == b.argIndex && a.ref == b.ref
  }

  ghost predicate DistinctIds(nodes: seq<Node>) {
    forall i, j :: 0 <= i < j < |nodes| ==> nodes[i].id != nodes[j].id
  }

  ghost predicate Known(nodes: seq<Node>, id: string) {
    exists i :: 0 <= i < |nodes| && nodes[i].id == id
  }

  ghost predicate DistinctEdges(edges: seq<Edge>) {
    forall i, j :: 0 <= i < j < |edges| ==> !SameEdge(edges[i], edges[j])
  }

  /** The place of an identity in the node order, |nodes| if it has none. */
  function Ordinal(nodes: seq<Node>, id: string): (o: nat)
    ensures o <= |nodes| && (o < |nodes| ==> nodes[o].id == id)
    ensures forall i :: 0 <= i < o ==> nodes[i].id != id
  {
    if nodes == [] then 0
    else if nodes[0].id == id then 0
    else
      var rest := Ordinal(nodes[1..], id);
      assert forall i :: 1 <= i < rest + 1 ==> nodes[i] == nodes[1..][i - 1];
      1 + rest
  }

  lemma OrdinalOf(nodes: seq<Node>, i: nat)
    requires DistinctIds(nodes) && i < |nodes|
    ensures Ordinal(nodes, nodes[i].id) == i
  {
  }

  /** Writing a node keeps its place if it has one and appends it otherwise. */
  function WithNode(nodes: seq<Node>, node: Node): (r: seq<Node>) {
    var o := Ordinal(nodes, node.id);
    if o < |nodes| then nodes[o := node] else nodes + [node]
  }

  /** An edge is appended unless one with the same ends, role, slot and reference is there. */
  function WithEdge(edges: seq<Edge>, edge: Edge): (r: seq<Edge>) {
    if exists e :: e in edges && SameEdge(e, edge) then edges else edges + [edge]
  }

  /** One record per identity: a node of a known identity takes the place of the one before it, and
      one of a new identity goes to the end. */
  lemma WithNodeIs(nodes: seq<Node>, node: Node)
    requires DistinctIds(nodes)
    ensures var after := WithNode(nodes, node);
      if exists i :: 0 <= i < |nodes| && nodes[i].id == node.id then
        && |after| == |nodes|
        && forall i :: 0 <= i < |nodes| ==> after[i] == if nodes[i].id == node.id then node else nodes[i]
      else after == nodes + [node]
  {
    if i :| 0 <= i < |nodes| && nodes[i].id == node.id {
      OrdinalOf(nodes, i);
    }
  }

  /** An edge is left out exactly when a recorded one equals it in source, target, role, argument
      slot and reference, all five. */
  lemma WithEdgeIs(edges: seq<Edge>, edge: Edge)
    ensures WithEdge(edges, edge) ==
      if exists e :: e in edges && e.source == edge.source && e.target == edge.target && e.role == edge.role
          && e.argIndex == edge.argIndex && e.ref == edge.ref
      then edges else edges + [edge]
  {
    forall e | e in edges
      ensures SameEdge(e, edge) <==>
        && e.source == edge.source && e.target == edge.target && e.role == edge.role
        && e.argIndex == edge.argIndex && e.ref == edge.ref
    {
    }
  }

  /** Two edges that differ in any one of the five are both kept, whatever else they share. */
  lemma BothAreKept(edges: seq<Edge>, a: Edge, b: Edge)
    requires a.source != b.source || a.target != b.target || a.role != b.role || a.argIndex != b.argIndex
      || a.ref != b.ref
    ensures var both := WithEdge(WithEdge(edges, a), b);
      exists x, y :: x in both && y in both && x != y
        && x.source == a.source && x.target == a.target && x.role == a.role && x.argIndex == a.argIndex
        && x.ref == a.ref
        && y.source == b.source && y.target == b.target && y.role == b.role && y.argIndex == b.argIndex
        && y.ref == b.ref
  {
    hide SameEdge, WithEdge;
    var one := WithEdge(edges, a);
    WithEdgeIs(edges, a);
    WithEdgeIs(one, b);
    var x :| x in one && x.source == a.source && x.target == a.target && x.role == a.role
      && x.argIndex == a.argIndex && x.ref == a.ref;
    var y :| y in WithEdge(one, b) && y.source == b.source && y.target == b.target && y.role == b.role
      && y.argIndex == b.argIndex && y.ref == b.ref;
  }

  lemma WithNodeDistinct(nodes: seq<Node>, node: Node)
    requires DistinctIds(nodes)
    ensures DistinctIds(WithNode(nodes, node))
    ensures |nodes| <= |WithNode(nodes, node)|
    ensures forall i :: 0 <= i < |nodes| ==> WithNode(nodes, node)[i].id == nodes[i].id
  {
  }

  ghost predicate EndsKnown(nodes: seq<Node>, edge: Edge) {
    Known(nodes, edge.source) && Known(nodes, edge.target)
  }

  ghost predicate AllEndsKnown(nodes: seq<Node>, edges: seq<Edge>) {
    forall k :: 0 <= k < |edges| ==> EndsKnown(nodes, edges[k])
  }

  /** The edges as pairs of ordinals. */
  function Rows(nodes: seq<Node>, edges: seq<Edge>): (rows: seq<(nat, nat)>)
    ensures |rows| == |edges|
  {
    seq(|edges|, k requires 0 <= k < |edges| => (Ordinal(nodes, edges[k].source), Ordinal(nodes, edges[k].target)))
  }

  // ---------- ordinals read back as identities ----------

  function Ids(nodes: seq<Node>): (r: seq<string>)
    ensures |r| == |nodes| && forall i :: 0 <= i < |nodes| ==> r[i] == nodes[i].id
  {
    seq(|nodes|, i requires 0 <= i < |nodes| => nodes[i].id)
  }

  function Names(order: seq<string>, nodes: seq<nat>): (r: seq<string>)
    requires forall i :: 0 <= i < |nodes| ==> nodes[i] < |order|
    ensures |r| == |nodes| && forall i :: 0 <= i < |nodes| ==> r[i] == order[nodes[i]]
  {
    seq(|nodes|, i requires 0 <= i < |nodes| => order[nodes[i]])
  }

  ghost predicate InOrder(order: seq<string>, cycles: seq<seq<nat>>) {
    forall i, k :: 0 <= i < |cycles| && 0 <= k < |cycles[i]| ==> cycles[i][k] < |order|
  }

  function NamesOfAll(order: seq<string>, cycles: seq<seq<nat>>): (r: seq<seq<string>>)
    requires InOrder(order, cycles)
    ensures |r| == |cycles| && forall i :: 0 <= i < |cycles| ==> r[i] == Names(order, cycles[i])
  {
    seq(|cycles|, i requires 0 <= i < |cycles| => Names(order, cycles[i]))
  }

  // ---------- what the final pass writes ----------

  function DecorateNode(node: Node, indegree: nat, outdegree: nat, inCycle: bool): (r: Node) {
    var counted := node.fields["in_degree" := Number(indegree)]["out_degree" := Number(outdegree)];
    node.(fields := counted["in_cycle" := Flag(inCycle)])
  }

  function DecorateEdge(edge: Edge, inCycle: bool): (r: Edge) {
    edge.(extra := edge.extra["in_cycle" := Flag(inCycle)])
  }
}
