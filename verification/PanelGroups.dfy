/** The visible nodes grouped by connection, with a union-find whose lookups halve the paths they
    walk. */
module PanelGroups {
  import opened Digraphs

  // ---------- a forest of parents ----------

  /** Parents have higher ranks, up to a bound; the program keeps no ranks. */
  ghost predicate Forest(p: seq<nat>, rank: seq<nat>, bound: nat) {
    && |rank| == |p|
    && forall x :: 0 <= x < |p| ==> p[x] < |p| && rank[x] <= bound && (p[x] != x ==> rank[x] < rank[p[x]])
  }

  ghost function Root(p: seq<nat>, rank: seq<nat>, bound: nat, x: nat): (r: nat)
    requires Forest(p, rank, bound) && x < |p|
    ensures r < |p| && p[r] == r
    decreases bound - rank[x]
  {
    if p[x] == x then x else Root(p, rank, bound, p[x])
  }

  lemma HalveKeepsForest(p: seq<nat>, rank: seq<nat>, bound: nat, x: nat)
    requires Forest(p, rank, bound) && x < |p|
    ensures Forest(p[x := p[p[x]]], rank, bound)
  {
    var y := p[x];
    assert p[y] < |p|;
    assert p[y] != y ==> rank[y] < rank[p[y]];
  }

  /** Halving a path moves no root. */
  lemma {:induction false} HalveKeepsRoots(p: seq<nat>, rank: seq<nat>, bound: nat, x: nat, y: nat)
    requires Forest(p, rank, bound) && x < |p| && y < |p|
    requires Forest(p[x := p[p[x]]], rank, bound)
    ensures Root(p[x := p[p[x]]], rank, bound, y) == Root(p, rank, bound, y)
    decreases bound - rank[y]
  {
    var q := p[x := p[p[x]]];
    if p[y] != y {
      HalveKeepsRoots(p, rank, bound, x, p[y]);
      if y == x && p[p[x]] != p[x] { HalveKeepsRoots(p, rank, bound, x, p[p[x]]); }
    }
  }

  ghost function Lifted(rank: seq<nat>, a: nat, b: nat): (r: seq<nat>)
    requires a < |rank| && b < |rank|
  {
    rank[b := if rank[b] > rank[a] then rank[b] else rank[a] + 1]
  }

  lemma LinkKeepsForest(p: seq<nat>, rank: seq<nat>, bound: nat, a: nat, b: nat)
    requires Forest(p, rank, bound) && a < |p| && b < |p| && p[a] == a && p[b] == b && a != b
    ensures Forest(p[a := b], Lifted(rank, a, b), bound + 1)
  {
  }

  /** Linking root a below root b moves exactly the nodes of a. */
  lemma {:induction false} LinkMovesRoots(p: seq<nat>, rank: seq<nat>, bound: nat, a: nat, b: nat, y: nat)
    requires Forest(p, rank, bound) && a < |p| && b < |p| && y < |p| && p[a] == a && p[b] == b && a != b
    requires Forest(p[a := b], Lifted(rank, a, b), bound + 1)
    ensures Root(p[a := b], Lifted(rank, a, b), bound + 1, y)
      == if Root(p, rank, bound, y) == a then b else Root(p, rank, bound, y)
    decreases bound - rank[y]
  {
    if p[y] != y { LinkMovesRoots(p, rank, bound, a, b, p[y]); }
  }

  // ---------- connection ----------

  /** The links in both directions. */
  ghost function Both(edges: seq<(nat, nat)>): (r: set<(nat, nat)>) {
    (set e | e in edges) + set e | e in edges :: (e.1, e.0)
  }

  lemma {:induction false} BothAppend(edges: seq<(nat, nat)>, e: (nat, nat))
    ensures Both(edges + [e]) == Both(edges) + {(e.0, e.1), (e.1, e.0)}
  {
    var more := edges + [e];
    assert e == (e.0, e.1);
    forall l ensures l in Both(more) <==> l in Both(edges) + {(e.0, e.1), (e.1, e.0)} {
      if l in Both(edges) {
        if l !in edges {
          var f :| f in edges && l == (f.1, f.0);
          assert f in more;
        }
      }
      if l in Both(more) && l !in more {
        var f :| f in more && l == (f.1, f.0);
        assert f in edges || f == e;
      }
    }
  }

  lemma ReachesMore(a: set<(nat, nat)>, b: set<(nat, nat)>, u: nat, v: nat)
    requires a <= b && Reaches(a, u, v)
    ensures Reaches(b, u, v)
  {
    var w :| WalkFromTo(a, w, u, v);
    forall i | 0 <= i < |w| - 1 ensures (w[i], w[i + 1]) in b {
      assert (w[i], w[i + 1]) in a;
    }
    assert WalkFromTo(b, w, u, v);
  }

  ghost predicate Symmetric(links: set<(nat, nat)>) { forall u, v :: (u, v) in links ==> (v, u) in links }

  lemma BothSymmetric(edges: seq<(nat, nat)>)
    ensures Symmetric(Both(edges))
  {
    forall u, v | (u, v) in Both(edges) ensures (v, u) in Both(edges) {
      if (u, v) in edges {
        assert (v, u) == ((u, v).1, (u, v).0);
      } else {
        var f :| f in edges && (u, v) == (f.1, f.0);
        assert f == (v, u);
      }
    }
  }

  lemma {:induction false} WalkBack(links: set<(nat, nat)>, w: seq<nat>, k: nat)
    requires Symmetric(links) && IsWalk(links, w) && k < |w|
    ensures Reaches(links, w[k], w[0])
  {
    hide Reaches;
    if k == 0 {
      ReachesSelf(links, w[0]);
    } else {
      WalkBack(links, w, k - 1);
      assert (w[k - 1], w[k - 1 + 1]) in links;
      ReachesEdge(links, w[k], w[k - 1]);
      ReachesTransitive(links, w[k], w[k - 1], w[0]);
    }
  }

  lemma ReachesBack(links: set<(nat, nat)>, u: nat, v: nat)
    requires Symmetric(links) && Reaches(links, u, v)
    ensures Reaches(links, v, u)
  {
    var w :| WalkFromTo(links, w, u, v);
    WalkBack(links, w, |w| - 1);
  }

  ghost predicate ReachesRoot(links: set<(nat, nat)>, p: seq<nat>, rank: seq<nat>, bound: nat, x: nat)
    requires Forest(p, rank, bound) && x < |p|
  {
    Reaches(links, x, Root(p, rank, bound, x))
  }

  /** Linked nodes share a root, and every node is connected to its root. */
  ghost predicate RootsFit(p: seq<nat>, rank: seq<nat>, bound: nat, edges: seq<(nat, nat)>) {
    && Forest(p, rank, bound)
    && (forall e :: e in edges ==> e.0 < |p| && e.1 < |p| && Root(p, rank, bound, e.0) == Root(p, rank, bound, e.1))
    && forall x: nat :: x < |p| ==> ReachesRoot(Both(edges), p, rank, bound, x)
  }

  /** Two nodes have one root exactly when they are connected. */
  lemma SameRootIffConnected(p: seq<nat>, rank: seq<nat>, bound: nat, edges: seq<(nat, nat)>, x: nat, y: nat)
    requires RootsFit(p, rank, bound, edges) && x < |p| && y < |p|
    ensures Root(p, rank, bound, x) == Root(p, rank, bound, y) <==> Reaches(Both(edges), x, y)
  {
    hide Reaches, Root;
    var links, r := Both(edges), Root(p, rank, bound, x);
    BothSymmetric(edges);
    assert ReachesRoot(links, p, rank, bound, x) && ReachesRoot(links, p, rank, bound, y);
    if Root(p, rank, bound, y) == r {
      ReachesBack(links, y, r);
      ReachesTransitive(links, x, r, y);
    }
    if Reaches(links, x, y) {
      var mine := set z: nat | z < |p| && Root(p, rank, bound, z) == r;
      forall u, v | (u, v) in links && u in mine ensures v in mine {
        if (u, v) !in edges {
          var f :| f in edges && (u, v) == (f.1, f.0);
        }
      }
      ReachesStaysInClosed(links, mine, x, y);
    }
  }

  lemma StartsFit(n: nat)
    ensures var p: seq<nat> := seq(n, i requires 0 <= i => i);
      var rank: seq<nat> := seq(n, _ => 0); RootsFit(p, rank, 0, [])
  {
    var p: seq<nat> := seq(n, i requires 0 <= i => i);
    var rank: seq<nat> := seq(n, _ => 0);
    forall x: nat | x < n ensures ReachesRoot(Both([]), p, rank, 0, x) { ReachesSelf(Both([]), x); }
  }

  lemma HalveFits(p: seq<nat>, rank: seq<nat>, bound: nat, edges: seq<(nat, nat)>, x: nat)
    requires RootsFit(p, rank, bound, edges) && x < |p|
    ensures Forest(p, rank, bound) && RootsFit(p[x := p[p[x]]], rank, bound, edges)
    ensures forall y: nat :: y < |p| ==> Root(p[x := p[p[x]]], rank, bound, y) == Root(p, rank, bound, y)
  {
    hide Reaches, Root;
    HalveKeepsForest(p, rank, bound, x);
    var q := p[x := p[p[x]]];
    forall y: nat | y < |p| ensures Root(q, rank, bound, y) == Root(p, rank, bound, y) {
      HalveKeepsRoots(p, rank, bound, x, y);
    }
    forall y: nat | y < |q| ensures ReachesRoot(Both(edges), q, rank, bound, y) {
      assert ReachesRoot(Both(edges), p, rank, bound, y);
    }
    forall e | e in edges ensures e.0 < |q| && e.1 < |q| && Root(q, rank, bound, e.0) == Root(q, rank, bound, e.1) {
      assert Root(p, rank, bound, e.0) == Root(p, rank, bound, e.1);
    }
  }

  lemma SameFits(p: seq<nat>, rank: seq<nat>, bound: nat, edges: seq<(nat, nat)>, e: (nat, nat))
    requires RootsFit(p, rank, bound, edges) && e.0 < |p| && e.1 < |p|
    requires Root(p, rank, bound, e.0) == Root(p, rank, bound, e.1)
    ensures RootsFit(p, rank, bound, edges + [e])
  {
    hide Reaches, Root, Both;
    BothAppend(edges, e);
    forall x: nat | x < |p| ensures ReachesRoot(Both(edges + [e]), p, rank, bound, x) {
      assert ReachesRoot(Both(edges), p, rank, bound, x);
      ReachesMore(Both(edges), Both(edges + [e]), x, Root(p, rank, bound, x));
    }
  }

  ghost function LiftedOf(p: seq<nat>, rank: seq<nat>, bound: nat, a: nat, b: nat): (r: seq<nat>)
    requires Forest(p, rank, bound) && a < |p| && b < |p|
  {
    Lifted(rank, a, b)
  }

  lemma ForestSizes(p: seq<nat>, rank: seq<nat>, bound: nat)
    requires Forest(p, rank, bound)
    ensures |rank| == |p|
  {
  }

  lemma BridgeReaches(p: seq<nat>, rank: seq<nat>, bound: nat, edges: seq<(nat, nat)>, e: (nat, nat), a: nat, b: nat)
    requires RootsFit(p, rank, bound, edges) && e.0 < |p| && e.1 < |p|
    requires a == Root(p, rank, bound, e.0) && b == Root(p, rank, bound, e.1)
    ensures Reaches(Both(edges + [e]), a, b)
  {
    hide Reaches, Root, Both, Forest;
    var links := Both(edges + [e]);
    BothAppend(edges, e);
    BothSymmetric(edges + [e]);
    assert ReachesRoot(Both(edges), p, rank, bound, e.0) && ReachesRoot(Both(edges), p, rank, bound, e.1);
    ReachesMore(Both(edges), links, e.0, a);
    ReachesMore(Both(edges), links, e.1, b);
    ReachesBack(links, e.0, a);
    ReachesEdge(links, e.0, e.1);
    ReachesTransitive(links, a, e.0, e.1);
    ReachesTransitive(links, a, e.1, b);
  }

  lemma LinkFits(p: seq<nat>, rank: seq<nat>, bound: nat, edges: seq<(nat, nat)>, e: (nat, nat), a: nat, b: nat)
    requires RootsFit(p, rank, bound, edges) && e.0 < |p| && e.1 < |p| && a != b
    requires a == Root(p, rank, bound, e.0) && b == Root(p, rank, bound, e.1)
    ensures RootsFit(p[a := b], Lifted(rank, a, b), bound + 1, edges + [e])
  {
    hide Reaches, Root, Both, Forest, Lifted;
    var top := bound + 1;
    var q, high, more := p[a := b], LiftedOf(p, rank, bound, a, b), edges + [e];
    ForestSizes(p, rank, bound);
    LinkKeepsForest(p, rank, bound, a, b);
    var links := Both(more);
    BothAppend(edges, e);
    BothSymmetric(more);
    forall y: nat | y < |p|
      ensures Root(q, high, top, y) == if Root(p, rank, bound, y) == a then b else Root(p, rank, bound, y)
    {
      LinkMovesRoots(p, rank, bound, a, b, y);
    }
    forall f | f in more ensures f.0 < |q| && f.1 < |q| && Root(q, high, top, f.0) == Root(q, high, top, f.1) {
      assert f in edges || f == e;
    }
    BridgeReaches(p, rank, bound, edges, e, a, b);
    forall x: nat | x < |q| ensures ReachesRoot(links, q, high, top, x) {
      assert ReachesRoot(Both(edges), p, rank, bound, x);
      ReachesMore(Both(edges), links, x, Root(p, rank, bound, x));
      if Root(p, rank, bound, x) == a { ReachesTransitive(links, x, a, b); }
    }
  }

  lemma FitsForest(p: seq<nat>, rank: seq<nat>, bound: nat, edges: seq<(nat, nat)>)
    requires RootsFit(p, rank, bound, edges)
    ensures Forest(p, rank, bound) && |rank| == |p|
  {
  }

  // ---------- groups ----------

  /** A group of nodes, in ascending order, with its cells and links counted. */
  datatype Group = Group(nodes: seq<nat>, cells: nat, links: nat)

  class Components {
    const parent: array<nat>
    ghost var rank: seq<nat>
    ghost var bound: nat
    ghost var joined: seq<(nat, nat)>

    ghost predicate Valid()
      reads this, parent
    {
      RootsFit(parent[..], rank, bound, joined)
    }

    ghost function RootOf(x: nat): (r: nat)
      requires Valid() && x < parent.Length
      reads this, parent
    {
      Root(parent[..], rank, bound, x)
    }

    constructor (n: nat)
      ensures Valid() && fresh(parent) && parent.Length == n && joined == []
    {
      parent := new nat[n](i requires 0 <= i => i);
      rank := seq(n, _ => 0);
      bound := 0;
      joined := [];
      new;
      StartsFit(n);
      assert parent[..] == seq(n, i requires 0 <= i => i);
    }

    lemma OnForest(p: seq<nat>, rank: seq<nat>, bound: nat, edges: seq<(nat, nat)>, x: nat)
      requires RootsFit(p, rank, bound, edges) && x < |p|
      ensures Forest(p, rank, bound) && p[x] < |p| && p[p[x]] < |p| && |rank| == |p| && rank[x] <= bound
      ensures rank[p[p[x]]] <= bound && (p[x] != x ==> rank[p[p[x]]] > rank[x])
      ensures Root(p, rank, bound, p[p[x]]) == Root(p, rank, bound, x)
      ensures p[x] == x ==> Root(p, rank, bound, x) == x
    {
    }

    /** The root of x; every second node on the way is moved up, and no root changes. */
    method Find(x0: nat) returns (x: nat)
      requires Valid() && x0 < parent.Length
      modifies parent
      ensures Valid() && x == RootOf(x0) && x < parent.Length && x == old(RootOf(x0))
      ensures forall y: nat :: y < parent.Length ==> RootOf(y) == old(RootOf(y))
    {
      x := x0;
      ghost var p0 := parent[..];
      while parent[x] != x
        invariant x < parent.Length && Valid()
        invariant RootOf(x) == old(RootOf(x0))
        invariant forall y: nat :: y < parent.Length ==> RootOf(y) == old(RootOf(y))
        decreases if |rank| == parent.Length then bound as int - rank[x] else 0
      {
        hide Root, Forest, RootsFit;
        ghost var p := parent[..];
        OnForest(p, rank, bound, joined, x);
        HalveFits(p, rank, bound, joined, x);
        parent[x] := parent[parent[x]];
        assert parent[..] == p[x := p[p[x]]];
        x := parent[x];
      }
    }

    method Union(e: (nat, nat))
      requires Valid() && e.0 < parent.Length && e.1 < parent.Length
      modifies this, parent
      ensures Valid() && joined == old(joined) + [e]
    {
      hide Root, Forest, RootsFit, Lifted, Both;
      var a := Find(e.0);
      var b := Find(e.1);
      ghost var p := parent[..];
      if a != b {
        LinkFits(p, rank, bound, joined, e, a, b);
        FitsForest(p, rank, bound, joined);
        parent[a] := b;
        rank := Lifted(rank, a, b);
        bound := bound + 1;
        assert parent[..] == p[a := b];
      } else {
        SameFits(p, rank, bound, joined, e);
      }
      joined := joined + [e];
    }
  }

  /** The groups are listed once each, and every visible node has one. */
  ghost predicate Listed(groups: map<nat, Group>, order: seq<nat>, vis: seq<bool>, roots: seq<nat>, n: nat)
    requires n <= |vis| == |roots|
  {
    && (forall r :: r in groups <==> r in order)
    && (forall i, j :: 0 <= i < j < |order| ==> order[i] != order[j])
    && forall x: nat :: x < n && vis[x] ==> roots[x] in groups
  }

  /** The visible nodes below n with this root. */
  function Members(vis: seq<bool>, roots: seq<nat>, r: nat, n: nat): (result: seq<nat>)
    requires n <= |vis| == |roots|
  {
    if n == 0 then [] else Members(vis, roots, r, n - 1) + (if vis[n - 1] && roots[n - 1] == r then [n - 1] else [])
  }

  function Cells(nodes: seq<nat>, inter: seq<bool>): (r: nat) {
    if nodes == [] then 0
    else
      var x := nodes[|nodes| - 1];
      Cells(nodes[..|nodes| - 1], inter) + (if x < |inter| && !inter[x] then 1 else 0)
  }

  ghost predicate Holds(g: Group, vis: seq<bool>, inter: seq<bool>, roots: seq<nat>, r: nat, n: nat)
    requires n <= |vis| == |roots|
  {
    g.nodes == Members(vis, roots, r, n) && g.nodes != [] && g.links == 0 && g.cells == Cells(g.nodes, inter)
  }

  /** Roots with a visible node, and what each group holds. */
  ghost predicate Grouped(groups: map<nat, Group>, order: seq<nat>, vis: seq<bool>, inter: seq<bool>, roots: seq<nat>,
                          n: nat)
    requires n <= |vis| == |inter| == |roots|
  {
    Listed(groups, order, vis, roots, n) && forall r :: r in groups ==> Holds(groups[r], vis, inter, roots, r, n)
  }

  lemma {:induction false} MembersAre(vis: seq<bool>, roots: seq<nat>, r: nat, n: nat, x: nat)
    requires n <= |vis| == |roots|
    ensures x in Members(vis, roots, r, n) <==> x < n && vis[x] && roots[x] == r
    ensures forall i, j :: 0 <= i < j < |Members(vis, roots, r, n)| ==>
        Members(vis, roots, r, n)[i] < Members(vis, roots, r, n)[j] < n
    ensures forall i :: 0 <= i < |Members(vis, roots, r, n)| ==> Members(vis, roots, r, n)[i] < n
  {
    if n > 0 { MembersAre(vis, roots, r, n - 1, x); }
  }

  lemma NoMembers(vis: seq<bool>, roots: seq<nat>, r: nat, n: nat)
    requires n <= |vis| == |roots| && forall x: nat :: x < n && vis[x] ==> roots[x] != r
    ensures Members(vis, roots, r, n) == []
  {
    var m := Members(vis, roots, r, n);
    if m != [] { MembersAre(vis, roots, r, n, m[0]); }
  }

  /** The number of links that start in the component of this root. */
  function LinksFrom(edges: seq<(nat, nat)>, roots: seq<nat>, r: nat): (result: nat)
    requires forall e :: e in edges ==> e.0 < |roots|
  {
    if edges == [] then 0
    else
      var e := edges[|edges| - 1];
      assert e in edges;
      LinksFrom(edges[..|edges| - 1], roots, r) + (if roots[e.0] == r then 1 else 0)
  }

  function LinkTotal(gs: seq<Group>): (r: nat) {
    if gs == [] then 0 else LinkTotal(gs[..|gs| - 1]) + gs[|gs| - 1].links
  }

  function RootTotal(order: seq<nat>, edges: seq<(nat, nat)>, roots: seq<nat>): (r: nat)
    requires forall e :: e in edges ==> e.0 < |roots|
  {
    if order == [] then 0
      else RootTotal(order[..|order| - 1], edges, roots) + LinksFrom(edges, roots, order[|order| - 1])
  }

  lemma {:induction false} TotalStep(order: seq<nat>, edges: seq<(nat, nat)>, roots: seq<nat>)
    requires edges != [] && forall e :: e in edges ==> e.0 < |roots|
    requires forall i, j :: 0 <= i < j < |order| ==> order[i] != order[j]
    ensures edges[|edges| - 1] in edges
    ensures RootTotal(order, edges, roots)
      == RootTotal(order, edges[..|edges| - 1], roots) + if roots[edges[|edges| - 1].0] in order then 1 else 0
  {
    if order != [] {
      var front := order[..|order| - 1];
      assert order == front + [order[|order| - 1]];
      TotalStep(front, edges, roots);
    }
  }

  lemma {:induction false} NoLinks(order: seq<nat>, roots: seq<nat>)
    ensures RootTotal(order, [], roots) == 0
  {
    if order != [] { NoLinks(order[..|order| - 1], roots); }
  }

  /** When every link starts in a listed component, the link counts add up to the number of links. */
  lemma {:induction false} LinksAddUp(order: seq<nat>, edges: seq<(nat, nat)>, roots: seq<nat>)
    requires forall e :: e in edges ==> e.0 < |roots| && roots[e.0] in order
    requires forall i, j :: 0 <= i < j < |order| ==> order[i] != order[j]
    ensures RootTotal(order, edges, roots) == |edges|
  {
    if edges == [] {
      NoLinks(order, roots);
    } else {
      TotalStep(order, edges, roots);
      LinksAddUp(order, edges[..|edges| - 1], roots);
    }
  }

  lemma {:induction false} TotalsMatch(gs: seq<Group>, order: seq<nat>, edges: seq<(nat, nat)>, roots: seq<nat>)
    requires |gs| == |order| && (forall e :: e in edges ==> e.0 < |roots|)
    requires forall i :: 0 <= i < |gs| ==> gs[i].links == LinksFrom(edges, roots, order[i])
    ensures LinkTotal(gs) == RootTotal(order, edges, roots)
  {
    if gs != [] { TotalsMatch(gs[..|gs| - 1], order[..|order| - 1], edges, roots); }
  }

  // ---------- the groups of a view ----------

  /** What each node's root is once all links are joined. */
  ghost predicate RootsAre(c: Components, roots: seq<nat>)
    reads c, c.parent
  {
    c.Valid() && |roots| == c.parent.Length && forall x: nat :: x < |roots| ==>
      c.RootOf(x) == roots[x] && roots[x] < |roots|
  }

  ghost predicate RootsConnect(roots: seq<nat>, edges: seq<(nat, nat)>) {
    forall x: nat, y: nat :: x < |roots| && y < |roots| ==> (roots[x] == roots[y] <==> Reaches(Both(edges), x, y))
  }

  ghost predicate CoversVisible(gs: seq<Group>, vis: seq<bool>) {
    forall x: nat :: x < |vis| && vis[x] ==> exists i :: 0 <= i < |gs| && x in gs[i].nodes
  }

  ghost predicate AllVisible(nodes: seq<nat>, vis: seq<bool>) {
    forall k :: 0 <= k < |nodes| ==> nodes[k] < |vis| && vis[nodes[k]]
  }

  ghost predicate OnlyVisible(gs: seq<Group>,
                              vis: seq<bool>) { forall i :: 0 <= i < |gs| ==> AllVisible(gs[i].nodes, vis) }

  /** Two grouped nodes are in one group exactly when they are connected. */
  ghost predicate Separates(gs: seq<Group>, edges: seq<(nat, nat)>) {
    forall i: nat, j: nat, x: nat, y: nat :: i < |gs| && j < |gs| && x in gs[i].nodes && y in gs[j].nodes
      ==> (i == j <==> Reaches(Both(edges), x, y))
  }

  ghost predicate Ascending(nodes: seq<nat>) { forall a, b :: 0 <= a < b < |nodes| ==> nodes[a] < nodes[b] }

  /** The groups: each holds, in ascending order, the visible nodes of one component. */
  ghost predicate Partition(gs: seq<Group>, vis: seq<bool>, inter: seq<bool>, edges: seq<(nat, nat)>) {
    && CoversVisible(gs, vis) && OnlyVisible(gs, vis) && Separates(gs, edges)
    && forall i :: 0 <= i < |gs| ==>
      Ascending(gs[i].nodes) && gs[i].nodes != [] && gs[i].cells == Cells(gs[i].nodes, inter)
  }

  /** Every link starts in a component with a visible node. */
  ghost predicate LinksVisible(vis: seq<bool>, edges: seq<(nat, nat)>) {
    forall e :: e in edges ==> exists x: nat :: x < |vis| && vis[x] && Reaches(Both(edges), x, e.0)
  }

  method JoinAll(n: nat, edges: seq<(nat, nat)>) returns (c: Components, ghost roots: seq<nat>)
    requires forall e :: e in edges ==> e.0 < n && e.1 < n
    ensures fresh(c) && fresh(c.parent) && |roots| == n && RootsAre(c, roots) && RootsConnect(roots, edges)
  {
    c := new Components(n);
    var i := 0;
    while i < |edges|
      invariant 0 <= i <= |edges|
      invariant fresh(c) && fresh(c.parent) && c.Valid() && c.parent.Length == n && c.joined == edges[..i]
    {
      hide RootsFit;
      assert edges[..i + 1] == edges[..i] + [edges[i]];
      assert edges[i] in edges;
      c.Union(edges[i]);
      i := i + 1;
    }
    assert edges[..|edges|] == edges;
    ghost var p, rank, bound := c.parent[..], c.rank, c.bound;
    roots := seq(n, x requires 0 <= x < n => Root(p, rank, bound, x));
    forall x: nat, y: nat | x < n && y < n ensures roots[x] == roots[y] <==> Reaches(Both(edges), x, y) {
      SameRootIffConnected(p, rank, bound, edges, x, y);
    }
  }

  method FindRoot(c: Components, ghost roots: seq<nat>, x: nat) returns (root: nat)
    requires RootsAre(c, roots) && x < |roots|
    modifies c.parent
    ensures RootsAre(c, roots) && root == roots[x]
  {
    hide Root, RootsFit;
    root := c.Find(x);
  }

  lemma NoneGrouped(vis: seq<bool>, inter: seq<bool>, roots: seq<nat>)
    requires |vis| == |inter| == |roots|
    ensures Grouped(map[], [], vis, inter, roots, 0)
  {
  }

  lemma CollectListed(was: map<nat, Group>, before: seq<nat>, groups: map<nat, Group>, order: seq<nat>, vis: seq<bool>,
                      roots: seq<nat>, i: nat)
    requires i < |vis| == |roots| && vis[i] && Listed(was, before, vis, roots, i)
    requires order == if roots[i] in was then before else before + [roots[i]]
    requires groups.Keys == was.Keys + {roots[i]}
    ensures Listed(groups, order, vis, roots, i + 1)
  {
  }

  lemma CollectElsewhere(g: Group, vis: seq<bool>, inter: seq<bool>, roots: seq<nat>, r: nat, i: nat)
    requires i < |vis| == |roots| && r != roots[i] && Holds(g, vis, inter, roots, r, i)
    ensures Holds(g, vis, inter, roots, r, i + 1)
  {
    hide Cells;
  }

  lemma NoCells(inter: seq<bool>)
    ensures Cells([], inter) == 0
  {
  }

  lemma CellsStep(nodes: seq<nat>, inter: seq<bool>, x: nat)
    requires x < |inter|
    ensures Cells(nodes + [x], inter) == Cells(nodes, inter) + if inter[x] then 0 else 1
  {
    assert (nodes + [x])[..|nodes + [x]| - 1] == nodes;
  }

  lemma CollectHere(was: map<nat, Group>, before: seq<nat>, vis: seq<bool>, inter: seq<bool>, roots: seq<nat>, i: nat)
    requires i < |vis| == |inter| == |roots| && vis[i] && Listed(was, before, vis, roots, i)
    requires roots[i] in was ==> Holds(was[roots[i]], vis, inter, roots, roots[i], i)
    ensures var g := if roots[i] in was then was[roots[i]] else Group([], 0, 0);
      Holds(Group(g.nodes + [i], g.cells + (if inter[i] then 0 else 1), g.links), vis, inter, roots, roots[i], i + 1)
  {
    hide Cells;
    CellsStep(if roots[i] in was then was[roots[i]].nodes else [], inter, i);
    if roots[i] !in was {
      NoMembers(vis, roots, roots[i], i);
      NoCells(inter);
    }
  }

  lemma CollectStep(was: map<nat, Group>, before: seq<nat>, groups: map<nat, Group>, order: seq<nat>, vis: seq<bool>,
                    inter: seq<bool>, roots: seq<nat>, i: nat)
    requires i < |vis| == |inter| == |roots| && vis[i] && Grouped(was, before, vis, inter, roots, i)
    requires order == if roots[i] in was then before else before + [roots[i]]
    requires var g := if roots[i] in was then was[roots[i]] else Group([], 0, 0);
      groups == was[roots[i] := Group(g.nodes + [i], g.cells + (if inter[i] then 0 else 1), g.links)]
    ensures Grouped(groups, order, vis, inter, roots, i + 1)
  {
    hide Cells, Members, Holds, Listed;
    CollectListed(was, before, groups, order, vis, roots, i);
    forall r | r in groups ensures Holds(groups[r], vis, inter, roots, r, i + 1) {
      if r == roots[i] {
        CollectHere(was, before, vis, inter, roots, i);
      } else {
        CollectElsewhere(was[r], vis, inter, roots, r, i);
      }
    }
  }

  lemma SkipStep(groups: map<nat, Group>, order: seq<nat>, vis: seq<bool>, inter: seq<bool>, roots: seq<nat>, i: nat)
    requires i < |vis| == |inter| == |roots| && !vis[i] && Grouped(groups, order, vis, inter, roots, i)
    ensures Grouped(groups, order, vis, inter, roots, i + 1)
  {
    hide Cells;
  }

  method CollectNodes(c: Components, ghost roots: seq<nat>, vis: seq<bool>, inter: seq<bool>)
    returns (groups: map<nat, Group>, order: seq<nat>)
    requires RootsAre(c, roots) && |roots| == |vis| == |inter|
    modifies c.parent
    ensures RootsAre(c, roots) && Grouped(groups, order, vis, inter, roots, |vis|)
  {
    hide Cells, Grouped, RootsAre;
    groups, order := map[], [];
    NoneGrouped(vis, inter, roots);
    var i := 0;
    while i < |vis|
      invariant 0 <= i <= |vis|
      invariant RootsAre(c, roots)
      invariant Grouped(groups, order, vis, inter, roots, i)
    {
      if vis[i] {
        var root := FindRoot(c, roots, i);
        ghost var was, before := groups, order;
        if root !in groups {
          groups := groups[root := Group([], 0, 0)];
          order := order + [root];
        }
        var g := groups[root];
        groups := groups[root := Group(g.nodes + [i], g.cells + (if inter[i] then 0 else 1), g.links)];
        CollectStep(was, before, groups, order, vis, inter, roots, i);
      } else {
        SkipStep(groups, order, vis, inter, roots, i);
      }
      i := i + 1;
    }
  }

  /** The groups after the links of the first k edges are counted. */
  ghost predicate Counted(groups: map<nat, Group>, start: map<nat, Group>, edges: seq<(nat, nat)>, roots: seq<nat>)
    requires forall e :: e in edges ==> e.0 < |roots|
  {
    && groups.Keys == start.Keys
    && forall r :: r in groups ==> groups[r] == start[r].(links := LinksFrom(edges, roots, r))
  }

  lemma CountedStep(groups: map<nat, Group>, start: map<nat, Group>, edges: seq<(nat, nat)>, roots: seq<nat>, i: nat)
    requires i < |edges| && (forall e :: e in edges ==> e.0 < |roots|) && Counted(groups, start, edges[..i], roots)
    ensures groups.Keys == start.Keys && edges[i].0 < |roots|
    ensures forall e :: e in edges[..i + 1] ==> e in edges
    ensures var root := roots[edges[i].0];
      root in groups ==>
        Counted(groups[root := groups[root].(links := groups[root].links + 1)], start, edges[..i + 1], roots)
  {
    assert edges[i] in edges;
    assert edges[..i + 1][..i] == edges[..i];
  }

  method CountLinks(c: Components, ghost roots: seq<nat>, start: map<nat, Group>, edges: seq<(nat, nat)>)
    returns (ok: bool, groups: map<nat, Group>)
    requires RootsAre(c, roots) && (forall e :: e in edges ==> e.0 < |roots|)
    requires forall r :: r in start ==> start[r].links == 0
    modifies c.parent
    ensures ok <==> forall e :: e in edges ==> roots[e.0] in start
    ensures ok ==> Counted(groups, start, edges, roots)
  {
    ok, groups := true, start;
    var i := 0;
    while i < |edges|
      invariant 0 <= i <= |edges| && RootsAre(c, roots)
      invariant forall e :: e in edges[..i] ==> e in edges && e.0 < |roots| && roots[e.0] in start
      invariant Counted(groups, start, edges[..i], roots)
    {
      hide RootsAre, Counted;
      var e := edges[i];
      assert e in edges;
      CountedStep(groups, start, edges, roots, i);
      assert edges[..i + 1] == edges[..i] + [e];
      var root := FindRoot(c, roots, e.0);
      if root !in groups {
        ok := false;
        return;
      }
      groups := groups[root := groups[root].(links := groups[root].links + 1)];
      i := i + 1;
    }
    assert edges[..|edges|] == edges;
  }

  lemma GroupedParts(groups: map<nat, Group>, order: seq<nat>, vis: seq<bool>, inter: seq<bool>, roots: seq<nat>)
    requires |vis| == |inter| == |roots| && Grouped(groups, order, vis, inter, roots, |vis|)
    ensures (forall r :: r in groups <==> r in order) && forall r :: r in groups ==> groups[r].links == 0
  {
  }

  lemma CountedKeys(groups: map<nat, Group>, start: map<nat, Group>, edges: seq<(nat, nat)>, roots: seq<nat>)
    requires (forall e :: e in edges ==> e.0 < |roots|) && Counted(groups, start, edges, roots)
    ensures groups.Keys == start.Keys
  {
  }

  lemma LinksVisibleIff(groups: map<nat, Group>, order: seq<nat>, vis: seq<bool>, inter: seq<bool>, roots: seq<nat>,
                        edges: seq<(nat, nat)>)
    requires |vis| == |inter| == |roots| && Grouped(groups, order, vis, inter, roots, |vis|)
    requires RootsConnect(roots, edges)
    requires forall e :: e in edges ==> e.0 < |vis| && e.1 < |vis|
    ensures LinksVisible(vis, edges) <==> forall e :: e in edges ==> roots[e.0] in groups
  {
    hide Reaches, Both, Cells;
    forall e | e in edges
      ensures roots[e.0] in groups <==> exists x: nat :: x < |vis| && vis[x] && Reaches(Both(edges), x, e.0)
    {
      if roots[e.0] in groups {
        var x := groups[roots[e.0]].nodes[0];
        MembersAre(vis, roots, roots[e.0], |vis|, x);
        assert roots[x] == roots[e.0];
      }
      if x: nat :| x < |vis| && vis[x] && Reaches(Both(edges), x, e.0) {
        assert roots[x] == roots[e.0];
      }
    }
  }

  ghost predicate Filled(gs: seq<Group>, order: seq<nat>, vis: seq<bool>, roots: seq<nat>) {
    |vis| == |roots| && |gs| == |order| && forall i :: 0 <= i < |gs| ==>
      gs[i].nodes == Members(vis, roots, order[i], |vis|)
  }

  lemma InGroup(gs: seq<Group>, order: seq<nat>, vis: seq<bool>, roots: seq<nat>, i: nat, x: nat)
    requires |vis| == |roots| && |gs| == |order| && i < |gs| && gs[i].nodes == Members(vis, roots, order[i], |vis|)
    ensures x in gs[i].nodes <==> x < |vis| && vis[x] && roots[x] == order[i]
    ensures Ascending(gs[i].nodes)
  {
    MembersAre(vis, roots, order[i], |vis|, x);
  }

  lemma EachIsIn(gs: seq<Group>, order: seq<nat>, vis: seq<bool>, roots: seq<nat>)
    requires Filled(gs, order, vis, roots) && forall x: nat :: x < |vis| && vis[x] ==> roots[x] in order
    ensures CoversVisible(gs, vis)
  {
    hide Members;
    forall x: nat | x < |vis| && vis[x] ensures exists i :: 0 <= i < |gs| && x in gs[i].nodes {
      assert roots[x] in order;
      var i: nat :| i < |order| && order[i] == roots[x];
      InGroup(gs, order, vis, roots, i, x);
      assert x in gs[i].nodes;
    }
  }

  lemma OthersAreOut(gs: seq<Group>, order: seq<nat>, vis: seq<bool>, roots: seq<nat>)
    requires Filled(gs, order, vis, roots)
    ensures OnlyVisible(gs, vis)
  {
    hide Members;
    forall i | 0 <= i < |gs| ensures AllVisible(gs[i].nodes, vis) {
      forall k | 0 <= k < |gs[i].nodes| ensures gs[i].nodes[k] < |vis| && vis[gs[i].nodes[k]] {
        InGroup(gs, order, vis, roots, i, gs[i].nodes[k]);
      }
    }
  }

  lemma GroupsSeparate(gs: seq<Group>, order: seq<nat>, vis: seq<bool>, roots: seq<nat>, edges: seq<(nat, nat)>)
    requires Filled(gs, order, vis, roots) && RootsConnect(roots, edges)
    requires forall i, j :: 0 <= i < j < |order| ==> order[i] != order[j]
    ensures Separates(gs, edges)
  {
    hide Reaches, Both, Members;
    forall i: nat, j: nat, x: nat, y: nat | i < |gs| && j < |gs| && x in gs[i].nodes && y in gs[j].nodes
      ensures i == j <==> Reaches(Both(edges), x, y)
    {
      InGroup(gs, order, vis, roots, i, x);
      InGroup(gs, order, vis, roots, j, y);
      assert i == j <==> order[i] == order[j];
      assert roots[x] == roots[y] <==> Reaches(Both(edges), x, y);
    }
  }

  lemma ViewIsDivided(gs: seq<Group>, order: seq<nat>, vis: seq<bool>, inter: seq<bool>, roots: seq<nat>,
                      edges: seq<(nat, nat)>)
    requires |vis| == |inter| && Filled(gs, order, vis, roots) && RootsConnect(roots, edges)
    requires forall i, j :: 0 <= i < j < |order| ==> order[i] != order[j]
    requires forall i :: 0 <= i < |gs| ==> gs[i].nodes != [] && gs[i].cells == Cells(gs[i].nodes, inter)
    requires forall x: nat :: x < |vis| && vis[x] ==> roots[x] in order
    ensures Partition(gs, vis, inter, edges)
  {
    hide Cells, Members, Separates, CoversVisible, OnlyVisible, RootsConnect, Ascending;
    EachIsIn(gs, order, vis, roots);
    OthersAreOut(gs, order, vis, roots);
    GroupsSeparate(gs, order, vis, roots, edges);
    forall i: nat | i < |gs| ensures Ascending(gs[i].nodes) { InGroup(gs, order, vis, roots, i, 0); }
  }

  ghost predicate SameOrder(gs: seq<Group>, groups: map<nat, Group>, order: seq<nat>) {
    |gs| == |order| && forall i :: 0 <= i < |order| ==> order[i] in groups && gs[i] == groups[order[i]]
  }

  lemma ViewIsPartitioned(gs: seq<Group>, groups: map<nat, Group>, start: map<nat, Group>, order: seq<nat>,
                          vis: seq<bool>, inter: seq<bool>,
                          roots: seq<nat>, edges: seq<(nat, nat)>)
    requires |vis| == |inter| == |roots| && Grouped(start, order, vis, inter, roots, |vis|)
    requires RootsConnect(roots, edges)
    requires forall e :: e in edges ==> e.0 < |vis| && e.1 < |vis|
    requires forall e :: e in edges ==> roots[e.0] in start
    requires Counted(groups, start, edges, roots) && SameOrder(gs, groups, order)
    ensures Partition(gs, vis, inter, edges) && LinkTotal(gs) == |edges|
  {
    hide Reaches, Both, Cells, Members, LinksFrom, RootTotal, LinkTotal, RootsConnect;
    assert forall i :: 0 <= i < |gs| ==> gs[i].nodes == Members(vis, roots, order[i], |vis|) && gs[i].nodes != [];
    assert Filled(gs, order, vis, roots);
    assert forall i :: 0 <= i < |gs| ==>
      gs[i].cells == Cells(gs[i].nodes, inter) && gs[i].links == LinksFrom(edges, roots, order[i]);
    assert forall x: nat :: x < |vis| && vis[x] ==> roots[x] in order;
    ViewIsDivided(gs, order, vis, inter, roots, edges);
    LinksAddUp(order, edges, roots);
    TotalsMatch(gs, order, edges, roots);
  }

  /** The groups of a view; not ok when a link starts in a component without a visible node. */
  method GroupView(vis: seq<bool>, inter: seq<bool>, edges: seq<(nat, nat)>) returns (ok: bool, gs: seq<Group>)
    requires |vis| == |inter| && forall e :: e in edges ==> e.0 < |vis| && e.1 < |vis|
    ensures ok <==> LinksVisible(vis, edges)
    ensures ok ==> Partition(gs, vis, inter, edges) && LinkTotal(gs) == |edges|
  {
    hide RootsAre, RootsConnect, Grouped, Counted, Partition, LinksVisible;
    var c, roots := JoinAll(|vis|, edges);
    var groups, order := CollectNodes(c, roots, vis, inter);
    GroupedParts(groups, order, vis, inter, roots);
    ghost var start := groups;
    ok, groups := CountLinks(c, roots, groups, edges);
    LinksVisibleIff(start, order, vis, inter, roots, edges);
    gs := [];
    if ok {
      CountedKeys(groups, start, edges, roots);
      var i := 0;
      while i < |order|
        invariant 0 <= i <= |order| && |gs| == i
        invariant forall j :: 0 <= j < i ==> gs[j] == groups[order[j]]
      {
        gs := gs + [groups[order[i]]];
        i := i + 1;
      }
      ViewIsPartitioned(gs, groups, start, order, vis, inter, roots, edges);
    }
  }
}
