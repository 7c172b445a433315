/** The whole search: what the list of circular references means. */
module TarjanComponents {
  import opened Digraphs
  import opened TarjanMachine

  // ---------- running the machine ----------

  ghost function Unseen(st: State): (r: set<nat>) {
    set v: nat | v < |st.index| && st.index[v] == 0
  }

  function TopRemaining(g: Graph, st: State): (r: nat)
    requires Shape(g, st)
  {
    if st.work == [] then 0
    else |g[st.work[|st.work| - 1].0]| - st.work[|st.work| - 1].1
  }

  predicate SomethingLeft(g: Graph, st: State)
    requires Shape(g, st) && |st.work| > 0
  {
    var top := st.work[|st.work| - 1];
    top.1 < |g[top.0]|
  }

  function Step(g: Graph, st: State): (t: State)
    requires Inv(g, st) && |st.work| > 0
    ensures Inv(g, t)
  {
    if SomethingLeft(g, st) then
      ExamineInv(g, st);
      Examine(g, st)
    else
      RetreatInv(g, st);
      Retreat(g, st)
  }

  /** A step discovers a node, or else shortens the work stack or what its top has left to examine. */
  ghost predicate Progress(g: Graph, st: State, t: State)
    requires Shape(g, st) && Shape(g, t)
  {
    || Unseen(t) < Unseen(st)
    || (t.index == st.index
      && (|t.work| < |st.work| || (|t.work| == |st.work| && TopRemaining(g, t) < TopRemaining(g, st))))
  }

  lemma ExamineProgress(g: Graph, st: State)
    requires WellFormed(g) && Shape(g, st) && |st.work| > 0 && SomethingLeft(g, st) && Shape(g, Examine(g, st))
    ensures Progress(g, st, Examine(g, st))
    ensures forall v :: 0 <= v < |g| && st.index[v] != 0 ==> Examine(g, st).index[v] != 0
  {
    var t := Examine(g, st);
    var u, p := st.work[|st.work| - 1].0, st.work[|st.work| - 1].1;
    var w := g[u][p];
    if st.index[w] == 0 {
      assert t.index == st.index[w := st.counter + 1];
      assert w in Unseen(st) && w !in Unseen(t);
      assert Unseen(t) <= Unseen(st);
    } else {
      assert t.work == Advance(st).work && t.index == st.index;
    }
  }

  lemma StepIs(g: Graph, st: State)
    requires Inv(g, st) && |st.work| > 0
    ensures WellFormed(g) && Shape(g, st) && Shape(g, Step(g, st))
    ensures Step(g, st) == if SomethingLeft(g, st) then Examine(g, st) else Retreat(g, st)
  {
    hide Examine, Retreat;
  }

  lemma RetreatProgress(g: Graph, st: State)
    requires Shape(g, st) && |st.work| > 0
    ensures Retreat(g, st).index == st.index && |Retreat(g, st).work| < |st.work|
  {
  }

  lemma StepProgress(g: Graph, st: State)
    requires Inv(g, st) && |st.work| > 0
    ensures Progress(g, st, Step(g, st))
    ensures forall v :: 0 <= v < |g| && st.index[v] != 0 ==> Step(g, st).index[v] != 0
  {
    hide Inv, Examine, Retreat;
    StepIs(g, st);
    if SomethingLeft(g, st) {
      ExamineProgress(g, st);
    } else {
      RetreatProgress(g, st);
    }
  }

  /** Explore until the work stack is empty. */
  function Explore(g: Graph, st: State): (t: State)
    requires Inv(g, st)
    ensures Inv(g, t) && t.work == []
    ensures forall v :: 0 <= v < |g| && st.index[v] != 0 ==> t.index[v] != 0
    decreases Unseen(st), |st.work|, TopRemaining(g, st)
  {
    if st.work == [] then st
    else
      StepProgress(g, st);
      assert Progress(g, st, Step(g, st));
      Explore(g, Step(g, st))
  }

  function StartAt(g: Graph, st: State, root: nat): (t: State)
    requires Inv(g, st) && st.work == [] && root < |g|
    ensures Inv(g, t)
    ensures forall v :: 0 <= v < |g| && (st.index[v] != 0 || v == root) ==> t.index[v] != 0
    ensures t.work == [] <==> st.index[root] != 0
  {
    if st.index[root] != 0 then st
    else
      RootInv(g, st, root);
      Visit(st, root)
  }

  /** The state after the first n roots have been tried in order. */
  function Search(g: Graph, n: nat): (t: State)
    requires WellFormed(g) && n <= |g|
    ensures Inv(g, t) && t.work == []
    ensures forall v :: 0 <= v < n ==> t.index[v] != 0
  {
    if n == 0 then
      InitInv(g);
      Init(|g|)
    else
      Explore(g, StartAt(g, Search(g, n - 1), n - 1))
  }

  /** A component a value can loop around: several nodes, or one that feeds itself. */
  predicate Circular(g: Graph, comp: seq<nat>) {
    |comp| > 1 || (|comp| == 1 && comp[0] < |g| && comp[0] in g[comp[0]])
  }

  function Circulars(g: Graph, comps: seq<seq<nat>>): (r: seq<seq<nat>>)
    ensures forall c :: c in r <==> c in comps && Circular(g, c)
  {
    if comps == [] then []
    else
      var rest := Circulars(g, comps[..|comps| - 1]);
      var last := comps[|comps| - 1];
      assert comps == comps[..|comps| - 1] + [last];
      if Circular(g, last) then rest + [last] else rest
  }

  /** The circular references of g, in the order both programs report them. */
  function Cycles(g: Graph): (r: seq<seq<nat>>)
    requires WellFormed(g)
  {
    Circulars(g, Search(g, |g|).comps)
  }

  // ---------- what the report means ----------

  lemma NothingLeftOnStack(g: Graph, e: set<(nat, nat)>, st: State)
    requires Shape(g, st) && ReachesDown(g, e, st) && st.work == []
    ensures st.onStack == {}
  {
    forall y: nat ensures y !in st.onStack {
      assert y < |g| ==> !Anchored(g, e, st, y);
    }
  }

  /** Every node ends in a component. */
  lemma EveryNodeFinished(g: Graph, v: nat)
    requires WellFormed(g) && v < |g|
    ensures InComps(Search(g, |g|).comps, v)
  {
    var st := Search(g, |g|);
    NothingLeftOnStack(g, EdgeSet(g), st);
    assert Done(g, st, v);
  }

  lemma LongWalkIsCycle(e: set<(nat, nat)>, v: nat, other: nat)
    requires v != other && Reaches(e, v, other) && Reaches(e, other, v)
    ensures OnCycle(e, v)
  {
    var walk :| WalkFromTo(e, walk, v, other);
    assert (walk[0], walk[0 + 1]) in e;
    var tail := walk[1..];
    forall i | 0 <= i < |tail| - 1 ensures (tail[i], tail[i + 1]) in e {
      assert (walk[i + 1], walk[i + 1 + 1]) in e;
    }
    assert WalkFromTo(e, tail, walk[1], other);
    ReachesTransitive(e, walk[1], other, v);
  }

  lemma CircularIffOnCycle(g: Graph, comp: seq<nat>, v: nat)
    requires IsComponent(g, EdgeSet(g), comp) && v in comp
    ensures Circular(g, comp) <==> OnCycle(EdgeSet(g), v)
  {
    var e := EdgeSet(g);
    if |comp| == 1 {
      assert v == comp[0];
      if v in g[v] {
        var k :| 0 <= k < |g[v]| && g[v][k] == v;
        assert (v, v) in e;
        ReachesSelf(e, v);
      }
      if OnCycle(e, v) {
        var w :| (v, w) in e && Reaches(e, w, v);
        ReachesEdge(e, v, w);
        assert w in comp;
        var k := EdgeSetAt(g, v, w);
        assert g[v][k] == v;
      }
    } else {
      var other := if comp[0] == v then comp[1] else comp[0];
      assert other in comp && other != v;
      assert Reaches(e, v, other) && Reaches(e, other, v);
      LongWalkIsCycle(e, v, other);
    }
  }

  /** A node of a component is reported exactly when its component is. */
  lemma InOneComponent(g: Graph, comps: seq<seq<nat>>, i: nat, v: nat)
    requires i < |comps| && v in comps[i] && forall a, b, x :: 0 <= a < b < |comps| && x in comps[a] ==> x !in comps[b]
    ensures InComps(Circulars(g, comps), v) <==> Circular(g, comps[i])
  {
    hide Circular;
    var cycles := Circulars(g, comps);
    if Circular(g, comps[i]) {
      assert comps[i] in cycles;
      var k :| 0 <= k < |cycles| && cycles[k] == comps[i];
    }
    if InComps(cycles, v) {
      var k :| 0 <= k < |cycles| && v in cycles[k];
      assert cycles[k] in comps;
      var j :| 0 <= j < |comps| && comps[j] == cycles[k];
      assert i == j;
    }
  }

  /** A node is reported in some circular reference exactly when it lies on a directed cycle. */
  lemma ReportedIffOnCycle(g: Graph, v: nat)
    requires WellFormed(g) && v < |g|
    ensures InComps(Cycles(g), v) <==> OnCycle(EdgeSet(g), v)
  {
    hide Search, EdgeSet, OnCycle, Circular, Circulars;
    var comps := Search(g, |g|).comps;
    EveryNodeFinished(g, v);
    var i :| 0 <= i < |comps| && v in comps[i];
    assert IsComponent(g, EdgeSet(g), comps[i]);
    CircularIffOnCycle(g, comps[i], v);
    InOneComponent(g, comps, i, v);
  }

  lemma {:induction false} CircularsOrder(g: Graph, comps: seq<seq<nat>>, i: nat, j: nat) returns (x: nat, y: nat)
    requires i < j < |Circulars(g, comps)|
    ensures x < y < |comps| && comps[x] == Circulars(g, comps)[i] && comps[y] == Circulars(g, comps)[j]
  {
    var init := comps[..|comps| - 1];
    if j < |Circulars(g, init)| {
      x, y := CircularsOrder(g, init, i, j);
    } else {
      y := |comps| - 1;
      assert Circulars(g, init)[i] in init;
      x :| 0 <= x < |init| && init[x] == Circulars(g, init)[i];
    }
  }

  ghost function Members(g: Graph, comps: seq<seq<nat>>): (r: set<nat>) {
    set v: nat | v < |g| && InComps(comps, v)
  }

  lemma PrefixClosed(g: Graph, comps: seq<seq<nat>>, i: nat)
    requires WellFormed(g) && SinksFirst(g, comps) && i < |comps|
    ensures Closed(EdgeSet(g), Members(g, comps[..i + 1]))
  {
    var prefix := comps[..i + 1];
    forall u, v | (u, v) in EdgeSet(g) && u in Members(g, prefix) ensures v in Members(g, prefix) {
      var k := EdgeSetAt(g, u, v);
      var h :| 0 <= h < |prefix| && u in prefix[h];
      assert u in comps[h];
      assert InComps(comps[..h + 1], g[u][k]);
      var m :| 0 <= m < h + 1 && v in comps[..h + 1][m];
      assert v in prefix[m];
    }
  }

  /** What a component reaches lies in it or in an earlier one. */
  lemma ReachesBack(g: Graph, comps: seq<seq<nat>>, x: nat, u: nat, v: nat) returns (h: nat)
    requires WellFormed(g) && Components(g, EdgeSet(g), comps) && SinksFirst(g, comps)
    requires x < |comps| && u in comps[x] && Reaches(EdgeSet(g), u, v)
    ensures h <= x && v in comps[h]
  {
    var prefix := comps[..x + 1];
    PrefixClosed(g, comps, x);
    assert prefix[x] == comps[x];
    assert IsComponent(g, EdgeSet(g), comps[x]);
    assert u in Members(g, prefix);
    ReachesStaysInClosed(EdgeSet(g), Members(g, prefix), u, v);
    h :| 0 <= h < x + 1 && v in prefix[h];
  }

  lemma NoReachAhead(g: Graph, comps: seq<seq<nat>>, x: nat, y: nat, u: nat, v: nat)
    requires WellFormed(g) && Components(g, EdgeSet(g), comps) && SinksFirst(g, comps)
    requires x < y < |comps| && u in comps[x] && v in comps[y]
    ensures u != v && !Reaches(EdgeSet(g), u, v)
  {
    if Reaches(EdgeSet(g), u, v) {
      var h := ReachesBack(g, comps, x, u, v);
    }
  }

  /** Reported sets are disjoint, and nothing reported earlier reaches anything reported later. */
  lemma CyclesInReverseOrder(g: Graph, i: nat, j: nat, u: nat, v: nat)
    requires WellFormed(g) && i < j < |Cycles(g)| && u in Cycles(g)[i] && v in Cycles(g)[j]
    ensures u != v && !Reaches(EdgeSet(g), u, v)
  {
    var comps := Search(g, |g|).comps;
    var x, y := CircularsOrder(g, comps, i, j);
    NoReachAhead(g, comps, x, y, u, v);
  }

  /** The report lists maximal sets of mutually reachable nodes, each without repetition, of several
      nodes or one that feeds itself, and no two of them share a node. */
  lemma CyclesAreComponents(g: Graph, i: nat)
    requires WellFormed(g) && i < |Cycles(g)|
    ensures IsComponent(g, EdgeSet(g), Cycles(g)[i]) && Circular(g, Cycles(g)[i])
    ensures forall j, u :: 0 <= j < |Cycles(g)| && j != i && u in Cycles(g)[i] ==> u !in Cycles(g)[j]
  {
    hide Search, Reaches;
    var cycles, comps := Cycles(g), Search(g, |g|).comps;
    assert cycles[i] in comps && Circular(g, cycles[i]);
    forall j, u | 0 <= j < |cycles| && j != i && u in cycles[i] ensures u !in cycles[j] {
      if u in cycles[j] {
        if i < j { CyclesInReverseOrder(g, i, j, u, u); } else { CyclesInReverseOrder(g, j, i, u, u); }
      }
    }
  }

  // ---------- the order inside a component ----------

  /** From the node discovered last to the one discovered first. */
  ghost predicate Falls(index: seq<nat>, comp: seq<nat>) {
    && (forall a :: 0 <= a < |comp| ==> comp[a] < |index|)
    && forall a, b :: 0 <= a < b < |comp| ==> index[comp[a]] > index[comp[b]]
  }

  ghost predicate NewestFirst(index: seq<nat>, comps: seq<seq<nat>>) {
    forall i :: 0 <= i < |comps| ==> Falls(index, comps[i])
  }

  /** The nodes of the components are discovered. */
  ghost predicate Discovered(index: seq<nat>, comps: seq<seq<nat>>) {
    forall i, a :: 0 <= i < |comps| && 0 <= a < |comps[i]| ==> comps[i][a] < |index| && index[comps[i][a]] > 0
  }

  ghost predicate Listed(st: State) { NewestFirst(st.index, st.comps) && Discovered(st.index, st.comps) }

  lemma VisitListed(st: State, v: nat)
    requires Listed(st) && v < |st.index| == |st.low| && st.index[v] == 0
    ensures Listed(Visit(st, v))
  {
    forall i | 0 <= i < |st.comps| ensures Falls(Visit(st, v).index, st.comps[i]) {
      assert Falls(st.index, st.comps[i]);
    }
  }

  ghost predicate Ascending(index: seq<nat>, part: seq<nat>) {
    && (forall a :: 0 <= a < |part| ==> part[a] < |index| && index[part[a]] > 0)
    && forall a, b :: 0 <= a < b < |part| ==> index[part[a]] < index[part[b]]
  }

  lemma ReversedListed(index: seq<nat>, comps: seq<seq<nat>>, part: seq<nat>)
    requires NewestFirst(index, comps) && Discovered(index, comps) && Ascending(index, part)
    ensures NewestFirst(index, comps + [Reverse(part)]) && Discovered(index, comps + [Reverse(part)])
  {
    assert Falls(index, Reverse(part));
  }

  lemma StackAscends(g: Graph, st: State, start: nat)
    requires Shape(g, st) && StackOrdered(g, st) && start <= |st.stack|
    ensures Ascending(st.index, st.stack[start..])
  {
    forall a | 0 <= a < |st.stack[start..]|
      ensures st.stack[start..][a] < |st.index| && st.index[st.stack[start..][a]] > 0
    {
      assert st.stack[start + a] in st.onStack;
    }
  }

  lemma EmitListed(g: Graph, st: State, u: nat)
    requires Listed(st) && Shape(g, st) && StackOrdered(g, st) && u in st.stack
    ensures Listed(Emit(st, u))
  {
    var start := Position(st.stack, u);
    StackAscends(g, st, start);
    hide Shape, StackOrdered, NewestFirst, Discovered, Ascending, Reverse, Position;
    ReversedListed(st.index, st.comps, st.stack[start..]);
  }

  lemma SameLists(a: State, b: State)
    requires a.index == b.index && a.comps == b.comps
    ensures Listed(a) <==> Listed(b)
  {
  }

  lemma StepListed(g: Graph, st: State)
    requires Inv(g, st) && |st.work| > 0 && Listed(st)
    ensures Listed(Step(g, st))
  {
    assert WellFormed(g) && Shape(g, st) && StackOrdered(g, st);
    hide Inv, Listed, StackOrdered;
    StepIs(g, st);
    if SomethingLeft(g, st) {
      var top := st.work[|st.work| - 1];
      var w := g[top.0][top.1];
      SameLists(st, Advance(st));
      if st.index[w] == 0 {
        VisitListed(Advance(st), w);
      } else {
        SameLists(st, Examine(g, st));
      }
    } else {
      var u := st.work[|st.work| - 1].0;
      var left := if st.low[u] == st.index[u] then Emit(st, u) else st;
      if st.low[u] == st.index[u] { EmitListed(g, st, u); }
      SameLists(left, PopWork(left));
    }
  }

  lemma {:induction false} ExploreListed(g: Graph, st: State)
    requires Inv(g, st) && Listed(st)
    ensures Listed(Explore(g, st))
    decreases Unseen(st), |st.work|, TopRemaining(g, st)
  {
    hide Listed;
    if st.work != [] {
      StepProgress(g, st);
      StepListed(g, st);
      assert Progress(g, st, Step(g, st));
      ExploreListed(g, Step(g, st));
    }
  }

  lemma StartListed(g: Graph, st: State, root: nat)
    requires Inv(g, st) && st.work == [] && root < |g| && Listed(st)
    ensures Listed(StartAt(g, st, root))
  {
    assert |st.index| == |st.low| == |g|;
    hide Inv, Listed;
    if st.index[root] == 0 { VisitListed(st, root); }
  }

  lemma NoneListed(g: Graph)
    ensures Listed(Init(|g|))
  {
  }

  lemma {:induction false} SearchListed(g: Graph, n: nat)
    requires WellFormed(g) && n <= |g|
    ensures Listed(Search(g, n))
  {
    hide Inv, Shape, Visit, NewestFirst, Discovered, StartAt, Explore;
    if n == 0 {
      NoneListed(g);
    } else {
      SearchListed(g, n - 1);
      StartListed(g, Search(g, n - 1), n - 1);
      ExploreListed(g, StartAt(g, Search(g, n - 1), n - 1));
    }
  }

  lemma CircularsListed(g: Graph, index: seq<nat>, comps: seq<seq<nat>>)
    requires NewestFirst(index, comps)
    ensures NewestFirst(index, Circulars(g, comps))
  {
    hide Circular, Falls;
    var report := Circulars(g, comps);
    forall i | 0 <= i < |report| ensures Falls(index, report[i]) {
      assert report[i] in comps;
    }
  }

  /** In the report every component is listed from its last discovered node to its first. */
  lemma CyclesNewestFirst(g: Graph)
    requires WellFormed(g)
    ensures NewestFirst(Search(g, |g|).index, Cycles(g))
  {
    hide Inv, NewestFirst, Search, Circulars;
    SearchListed(g, |g|);
    CircularsListed(g, Search(g, |g|).index, Search(g, |g|).comps);
  }
}
