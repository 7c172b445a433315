/** The depth-first component search as a step machine over node ordinals, with its invariants.
    `xl_graph_store.py` runs it on integer arrays, `xl_ast_graph.py` on dictionaries;
    both programs are tied to this one machine, so what is proved here holds of both. */
module TarjanMachine {
  import opened Digraphs

  /** g[u] lists the successors of u in edge order, repetitions included. */
  type Graph = seq<seq<nat>>

  ghost predicate WellFormed(g: Graph) {
    forall u, k :: 0 <= u < |g| && 0 <= k < |g[u]| ==> g[u][k] < |g|
  }

  ghost function EdgeSet(g: Graph): (r: set<(nat, nat)>)
  {
    set u: nat, k: nat | u < |g| && k < |g[u]| :: (u, g[u][k])
  }

  /** index is 0 for an undiscovered node; work holds (node, successors already examined);
      comps lists every component left so far, members in the order they left the stack. */
  datatype State = State(
    index: seq<nat>,
    low: seq<nat>,
    stack: seq<nat>,
    onStack: set<nat>,
    work: seq<(nat, nat)>,
    counter: nat,
    comps: seq<seq<nat>>)

  // ---------- the machine ----------

  function Min(a: nat, b: nat): (r: nat) { if a <= b then a else b }

  function Reverse<T>(s: seq<T>): (r: seq<T>)
    ensures |r| == |s|
    ensures forall k :: 0 <= k < |s| ==> r[k] == s[|s| - 1 - k]
  {
    seq(|s|, k requires 0 <= k < |s| => s[|s| - 1 - k])
  }

  function Position(s: seq<nat>, v: nat): (p: nat)
    requires v in s
    ensures p < |s| && s[p] == v
    ensures forall k :: p < k < |s| ==> s[k] != v
  {
    if s[|s| - 1] == v then |s| - 1 else Position(s[..|s| - 1], v)
  }

  ghost predicate Shape(g: Graph, st: State) {
    && |st.index| == |g| && |st.low| == |g|
    && (forall i :: 0 <= i < |st.stack| ==> st.stack[i] in st.onStack)
    && (forall v {:trigger v in st.onStack} :: v in st.onStack ==> v in st.stack && v < |g|)
    && (forall i :: 0 <= i < |st.work| ==> st.work[i].0 in st.onStack)
    && (forall i :: 0 <= i < |st.work| ==> st.work[i].0 < |g| && st.work[i].1 <= |g[st.work[i].0]|)
    && (forall v :: 0 <= v < |g| ==> st.index[v] <= st.counter)
  }

  function Init(n: nat): (r: State) {
    State(seq(n, _ => 0), seq(n, _ => 0), [], {}, [], 0, [])
  }

  function Visit(st: State, v: nat): (r: State)
    requires v < |st.index| == |st.low|
  {
    var c := st.counter + 1;
    State(st.index[v := c], st.low[v := c], st.stack + [v], st.onStack + {v}, st.work + [(v, 0)], c, st.comps)
  }

  /** Move past the next successor of the node on top of the work stack. */
  function Advance(st: State): (r: State)
    requires |st.work| > 0
  {
    var d := |st.work| - 1;
    st.(work := st.work[d := (st.work[d].0, st.work[d].1 + 1)])
  }

  /** Look at the next successor of the node on top of the work stack. */
  function Examine(g: Graph, st: State): (r: State)
    requires WellFormed(g) && Shape(g, st)
    requires |st.work| > 0
    requires var top := st.work[|st.work| - 1]; top.1 < |g[top.0]|
  {
    var u, p := st.work[|st.work| - 1].0, st.work[|st.work| - 1].1;
    var w := g[u][p];
    if st.index[w] == 0 then Visit(Advance(st), w)
    else if w in st.onStack then Advance(st).(low := st.low[u := Min(st.low[u], st.index[w])])
    else Advance(st)
  }

  function Emit(st: State, u: nat): (r: State)
    requires u in st.stack
  {
    var start := Position(st.stack, u);
    st.(stack := st.stack[..start],
        onStack := st.onStack - (set k | start <= k < |st.stack| :: st.stack[k]),
        comps := st.comps + [Reverse(st.stack[start..])])
  }

  function PopWork(st: State): (r: State)
    requires |st.work| > 0
    requires forall i :: 0 <= i < |st.work| ==> st.work[i].0 < |st.low|
  {
    var d := |st.work| - 1;
    var u := st.work[d].0;
    if d == 0 then st.(work := [])
    else
      var parent := st.work[d - 1].0;
      st.(work := st.work[..d], low := st.low[parent := Min(st.low[parent], st.low[u])])
  }

  /** Leave the node on top of the work stack, whose successors are all examined. */
  function Retreat(g: Graph, st: State): (r: State)
    requires Shape(g, st) && |st.work| > 0
  {
    var u := st.work[|st.work| - 1].0;
    PopWork(if st.low[u] == st.index[u] then Emit(st, u) else st)
  }

  // ---------- invariants ----------

  ghost predicate Done(g: Graph, st: State, v: nat)
    requires Shape(g, st)
  {
    v < |g| && st.index[v] != 0 && v !in st.onStack
  }

  ghost predicate InComps(comps: seq<seq<nat>>, v: nat) {
    exists i :: 0 <= i < |comps| && v in comps[i]
  }

  ghost predicate StackOrdered(g: Graph, st: State)
    requires Shape(g, st)
  {
    && (forall v :: v in st.onStack ==> st.index[v] > 0)
    && (forall i, j :: 0 <= i < j < |st.stack| ==> st.index[st.stack[i]] < st.index[st.stack[j]])
  }

  ghost predicate WorkOrdered(g: Graph, st: State)
    requires Shape(g, st)
  {
    forall i, j :: 0 <= i < j < |st.work| ==> st.index[st.work[i].0] < st.index[st.work[j].0]
  }

  ghost predicate Gray(st: State, v: nat) {
    exists i :: 0 <= i < |st.work| && st.work[i].0 == v
  }

  /** Examined successors are discovered (`except` aside). */
  ghost predicate ExaminedSeen(g: Graph, st: State, except: int)
    requires WellFormed(g) && Shape(g, st)
  {
    forall i, k :: 0 <= i < |st.work| && 0 <= k < st.work[i].1 && g[st.work[i].0][k] != except ==>
      st.index[g[st.work[i].0][k]] != 0
  }

  /** A discovered node off the work stack has had all its successors examined. */
  ghost predicate FinishedSeen(g: Graph, st: State)
    requires WellFormed(g) && Shape(g, st)
  {
    forall v, k :: 0 <= v < |g| && st.index[v] != 0 && !Gray(st, v) && 0 <= k < |g[v]| ==> st.index[g[v][k]] != 0
  }

  /** A node being explored reaches everything above it on the stack. */
  ghost predicate ReachesUp(g: Graph, e: set<(nat, nat)>, st: State)
    requires Shape(g, st)
  {
    forall i, y :: 0 <= i < |st.work| && y in st.onStack && st.index[st.work[i].0] <= st.index[y]
      ==> Reaches(e, st.work[i].0, y)
  }

  ghost predicate Anchored(g: Graph, e: set<(nat, nat)>, st: State, y: nat)
    requires Shape(g, st) && y < |g|
  {
    exists i :: 0 <= i < |st.work| && st.index[st.work[i].0] <= st.index[y] && Reaches(e, y, st.work[i].0)
  }

  /** Everything on the stack reaches a node being explored at or below it. */
  ghost predicate ReachesDown(g: Graph, e: set<(nat, nat)>, st: State)
    requires Shape(g, st)
  {
    forall y {:trigger Anchored(g, e, st, y)} :: y in st.onStack ==> Anchored(g, e, st, y)
  }

  ghost predicate LowWitness(g: Graph, e: set<(nat, nat)>, st: State, u: nat)
    requires Shape(g, st) && u < |g|
  {
    exists z :: z in st.onStack && st.index[z] == st.low[u] && Reaches(e, u, z)
  }

  /** low never promises more than is reachable. */
  ghost predicate LowSound(g: Graph, e: set<(nat, nat)>, st: State)
    requires Shape(g, st)
  {
    forall i {:trigger LowWitness(g, e, st, st.work[i].0)} {:trigger st.low[st.work[i].0]} ::
      0 <= i < |st.work| ==> st.low[st.work[i].0] <= st.index[st.work[i].0] && LowWitness(g, e, st, st.work[i].0)
  }

  /** Every examined edge that stays on the stack is accounted for in the low of its explorer. */
  ghost predicate LowOwn(g: Graph, st: State)
    requires WellFormed(g) && Shape(g, st)
  {
    forall i, k :: 0 <= i < |st.work| && 0 <= k < st.work[i].1 && g[st.work[i].0][k] in st.onStack
      ==> st.low[st.work[i].0] <= st.index[g[st.work[i].0][k]]
  }

  /** y was finished under the exploration of work[i] and of nothing deeper. */
  ghost predicate FinishedUnder(g: Graph, st: State, i: int, y: int)
    requires Shape(g, st)
  {
    && 0 <= i < |st.work| && 0 <= y && y in st.onStack
    && st.index[st.work[i].0] < st.index[y]
    && (i + 1 < |st.work| ==> st.index[y] < st.index[st.work[i + 1].0])
  }

  ghost predicate LowFinished(g: Graph, st: State)
    requires WellFormed(g) && Shape(g, st)
  {
    forall i, y, k :: FinishedUnder(g, st, i, y) && 0 <= k < |g[y]| && g[y][k] in st.onStack
      ==> st.low[st.work[i].0] <= st.index[g[y][k]]
  }

  /** A maximal set of mutually reachable nodes, listed without repetition. */
  ghost predicate IsComponent(g: Graph, e: set<(nat, nat)>, comp: seq<nat>) {
    && |comp| > 0
    && (forall i, j :: 0 <= i < j < |comp| ==> comp[i] != comp[j])
    && (forall u :: u in comp ==> u < |g|)
    && (forall u, v: nat :: u in comp ==> (v in comp <==> Reaches(e, u, v) && Reaches(e, v, u)))
  }

  ghost predicate Components(g: Graph, e: set<(nat, nat)>, comps: seq<seq<nat>>) {
    && (forall i :: 0 <= i < |comps| ==> IsComponent(g, e, comps[i]))
    && (forall i, j, v :: 0 <= i < j < |comps| && v in comps[i] ==> v !in comps[j])
  }

  /** No edge leads from an earlier component to a later one. */
  ghost predicate SinksFirst(g: Graph, comps: seq<seq<nat>>) {
    forall i, v, k :: 0 <= i < |comps| && v in comps[i] && v < |g| && 0 <= k < |g[v]|
      ==> InComps(comps[..i + 1], g[v][k])
  }

  ghost predicate Covered(g: Graph, st: State)
    requires Shape(g, st)
  {
    forall v :: InComps(st.comps, v) <==> Done(g, st, v)
  }

  ghost predicate Inv(g: Graph, st: State) {
    && WellFormed(g) && Shape(g, st) && StackOrdered(g, st) && WorkOrdered(g, st)
    && ExaminedSeen(g, st, -1) && FinishedSeen(g, st)
    && ReachesUp(g, EdgeSet(g), st) && ReachesDown(g, EdgeSet(g), st)
    && LowSound(g, EdgeSet(g), st) && LowOwn(g, st) && LowFinished(g, st)
    && Covered(g, st) && Components(g, EdgeSet(g), st.comps) && SinksFirst(g, st.comps)
  }

  lemma InitInv(g: Graph)
    requires WellFormed(g)
    ensures Inv(g, Init(|g|))
  {
  }

  // ---------- discovering a node ----------

  lemma VisitKeepsShape(g: Graph, st: State, v: nat)
    requires Shape(g, st) && v < |g| && v !in st.onStack
    ensures Shape(g, Visit(st, v))
  {
    var t := Visit(st, v);
    assert forall i :: 0 <= i < |st.work| ==> t.work[i] == st.work[i];
    forall x | x in t.onStack ensures x in t.stack && x < |g| {
      if x == v { assert t.stack[|st.stack|] == v; } else { assert x in st.stack; }
    }
    forall i | 0 <= i < |t.stack| ensures t.stack[i] in t.onStack {
      assert i < |st.stack| ==> t.stack[i] == st.stack[i];
    }
  }

  lemma VisitStack(g: Graph, st: State, v: nat)
    requires Shape(g, st) && v < |g| && v !in st.onStack && StackOrdered(g, st) && Shape(g, Visit(st, v))
    ensures StackOrdered(g, Visit(st, v))
  {
    var t := Visit(st, v);
    forall i, j | 0 <= i < j < |t.stack| ensures t.index[t.stack[i]] < t.index[t.stack[j]] {
      assert t.stack[i] == st.stack[i] && st.stack[i] in st.onStack;
      assert j < |st.stack| ==> t.stack[j] == st.stack[j] && st.stack[j] in st.onStack;
    }
  }

  lemma VisitWork(g: Graph, st: State, v: nat)
    requires Shape(g, st) && v < |g| && v !in st.onStack && WorkOrdered(g, st) && Shape(g, Visit(st, v))
    ensures WorkOrdered(g, Visit(st, v))
  {
    var t := Visit(st, v);
    forall i | 0 <= i < |st.work| ensures t.work[i] == st.work[i] && st.work[i].0 != v {
      assert st.work[i].0 in st.onStack;
    }
    forall i, j | 0 <= i < j < |t.work| ensures t.index[t.work[i].0] < t.index[t.work[j].0] {
      assert t.work[i] == st.work[i];
      if j < |st.work| { assert t.work[j] == st.work[j]; } else { assert t.work[j].0 == v; }
    }
  }

  lemma VisitShape(g: Graph, st: State, v: nat)
    requires Shape(g, st) && v < |g| && v !in st.onStack
    requires StackOrdered(g, st) && WorkOrdered(g, st)
    ensures var t := Visit(st, v); Shape(g, t) && StackOrdered(g, t) && WorkOrdered(g, t)
  {
    hide Shape, StackOrdered, WorkOrdered, Visit;
    VisitKeepsShape(g, st, v);
    VisitStack(g, st, v);
    VisitWork(g, st, v);
  }

  lemma VisitSeen(g: Graph, st: State, v: nat)
    requires WellFormed(g) && Shape(g, st) && v < |g| && st.index[v] == 0 && Shape(g, Visit(st, v))
    requires ExaminedSeen(g, st, v) && FinishedSeen(g, st) && Covered(g, st)
    ensures var t := Visit(st, v); ExaminedSeen(g, t, -1) && FinishedSeen(g, t) && Covered(g, t)
  {
    var t := Visit(st, v);
    assert t.work[|st.work|].0 == v;
    assert forall i :: 0 <= i < |st.work| ==> t.work[i] == st.work[i];
    forall x, k | 0 <= x < |g| && t.index[x] != 0 && !Gray(t, x) && 0 <= k < |g[x]|
      ensures t.index[g[x][k]] != 0
    {
      assert x != v;
      assert !Gray(st, x);
      assert st.index[g[x][k]] != 0;
    }
    forall x ensures InComps(t.comps, x) <==> Done(g, t, x) {
      assert InComps(st.comps, x) <==> Done(g, st, x);
    }
  }

  lemma VisitUp(g: Graph, e: set<(nat, nat)>, st: State, v: nat)
    requires Shape(g, st) && v < |g| && v !in st.onStack && Shape(g, Visit(st, v))
    requires WorkOrdered(g, st) && ReachesUp(g, e, st)
    requires |st.work| > 0 ==> Reaches(e, st.work[|st.work| - 1].0, v)
    ensures ReachesUp(g, e, Visit(st, v))
  {
    var t := Visit(st, v);
    assert forall i :: 0 <= i < |st.work| ==> t.work[i] == st.work[i] && st.work[i].0 != v;
    ReachesSelf(e, v);
    forall i, y | 0 <= i < |t.work| && y in t.onStack && t.index[t.work[i].0] <= t.index[y]
      ensures Reaches(e, t.work[i].0, y)
    {
      if i < |st.work| && y == v {
        var x, top := st.work[i].0, st.work[|st.work| - 1].0;
        assert st.index[x] <= st.index[top];
        ReachesTransitive(e, x, top, v);
      }
    }
  }

  lemma VisitDown(g: Graph, e: set<(nat, nat)>, st: State, v: nat)
    requires Shape(g, st) && v < |g| && v !in st.onStack && Shape(g, Visit(st, v))
    requires ReachesDown(g, e, st)
    ensures ReachesDown(g, e, Visit(st, v))
  {
    var t := Visit(st, v);
    assert forall i :: 0 <= i < |st.work| ==> t.work[i] == st.work[i] && st.work[i].0 != v;
    ReachesSelf(e, v);
    forall y | y in t.onStack
      ensures Anchored(g, e, t, y)
    {
      if y == v {
        assert t.work[|st.work|].0 == v;
      } else {
        assert Anchored(g, e, st, y);
        var i :| 0 <= i < |st.work| && st.index[st.work[i].0] <= st.index[y] && Reaches(e, y, st.work[i].0);
        assert t.work[i].0 == st.work[i].0;
      }
    }
  }

  lemma VisitLowSound(g: Graph, e: set<(nat, nat)>, st: State, v: nat)
    requires Shape(g, st) && v < |g| && v !in st.onStack && Shape(g, Visit(st, v))
    requires LowSound(g, e, st)
    ensures LowSound(g, e, Visit(st, v))
  {
    var t := Visit(st, v);
    assert forall i :: 0 <= i < |st.work| ==> t.work[i] == st.work[i] && st.work[i].0 != v;
    ReachesSelf(e, v);
    forall i | 0 <= i < |t.work|
      ensures t.low[t.work[i].0] <= t.index[t.work[i].0] && LowWitness(g, e, t, t.work[i].0)
    {
      if i < |st.work| {
        assert LowWitness(g, e, st, st.work[i].0);
      } else {
        assert v in t.onStack && t.index[v] == t.low[v];
      }
    }
  }

  lemma VisitLowOwn(g: Graph, st: State, v: nat)
    requires WellFormed(g) && Shape(g, st) && v < |g| && v !in st.onStack && Shape(g, Visit(st, v)) && LowOwn(g, st)
    requires forall i :: 0 <= i < |st.work| ==> st.low[st.work[i].0] <= st.index[st.work[i].0]
    ensures LowOwn(g, Visit(st, v))
  {
    var t := Visit(st, v);
    assert forall i :: 0 <= i < |st.work| ==> t.work[i] == st.work[i] && st.work[i].0 != v;
  }

  lemma VisitLowFinished(g: Graph, st: State, v: nat)
    requires WellFormed(g) && Shape(g, st) && v < |g| && v !in st.onStack && Shape(g, Visit(st, v))
    requires LowFinished(g, st)
    requires forall i :: 0 <= i < |st.work| ==> st.low[st.work[i].0] <= st.index[st.work[i].0]
    requires StackOrdered(g, Visit(st, v))
    ensures LowFinished(g, Visit(st, v))
  {
    var t := Visit(st, v);
    assert forall i :: 0 <= i < |st.work| ==> t.work[i] == st.work[i] && st.work[i].0 != v;
    forall i, y, k | FinishedUnder(g, t, i, y) && 0 <= k < |g[y]| && g[y][k] in t.onStack
      ensures t.low[t.work[i].0] <= t.index[g[y][k]]
    {
      assert i < |st.work|;
      assert i + 1 < |st.work| ==> t.work[i + 1] == st.work[i + 1];
      assert y != v;
      assert FinishedUnder(g, st, i, y);
    }
  }

  lemma VisitInv(g: Graph, st: State, v: nat)
    requires WellFormed(g) && Shape(g, st) && v < |g| && st.index[v] == 0
    requires StackOrdered(g, st) && WorkOrdered(g, st)
    requires ExaminedSeen(g, st, v) && FinishedSeen(g, st)
    requires ReachesUp(g, EdgeSet(g), st) && ReachesDown(g, EdgeSet(g), st)
    requires LowSound(g, EdgeSet(g), st) && LowOwn(g, st) && LowFinished(g, st)
    requires Covered(g, st) && Components(g, EdgeSet(g), st.comps) && SinksFirst(g, st.comps)
    requires |st.work| > 0 ==> Reaches(EdgeSet(g), st.work[|st.work| - 1].0, v)
    ensures Inv(g, Visit(st, v))
  {
    VisitShape(g, st, v);
    VisitSeen(g, st, v);
    VisitUp(g, EdgeSet(g), st, v);
    VisitDown(g, EdgeSet(g), st, v);
    VisitLowSound(g, EdgeSet(g), st, v);
    VisitLowOwn(g, st, v);
    VisitLowFinished(g, st, v);
  }

  lemma RootInv(g: Graph, st: State, v: nat)
    requires Inv(g, st) && st.work == [] && v < |g| && st.index[v] == 0
    ensures Inv(g, Visit(st, v))
  {
    VisitInv(g, st, v);
  }

  // ---------- moving past a successor ----------

  lemma AdvanceShape(g: Graph, st: State)
    requires Shape(g, st) && |st.work| > 0
    requires var top := st.work[|st.work| - 1]; top.1 < |g[top.0]|
    ensures Shape(g, Advance(st))
    ensures |Advance(st).work| == |st.work| && forall i :: 0 <= i < |st.work| ==> Advance(st).work[i].0 == st.work[i].0
  {
  }

  lemma AdvanceKeeps(g: Graph, e: set<(nat, nat)>, st: State)
    requires WellFormed(g) && Shape(g, st) && StackOrdered(g, st) && WorkOrdered(g, st)
    requires ReachesUp(g, e, st) && LowFinished(g, st) && Covered(g, st)
    requires |st.work| > 0
    requires var top := st.work[|st.work| - 1]; top.1 < |g[top.0]|
    ensures Shape(g, Advance(st)) && StackOrdered(g, Advance(st)) && WorkOrdered(g, Advance(st))
    ensures ReachesUp(g, e, Advance(st)) && LowFinished(g, Advance(st)) && Covered(g, Advance(st))
  {
    AdvanceShape(g, st);
    var t := Advance(st);
    assert forall i, y :: FinishedUnder(g, t, i, y) ==> FinishedUnder(g, st, i, y);
    assert forall v :: Done(g, t, v) <==> Done(g, st, v);
  }

  lemma AdvanceFinished(g: Graph, st: State)
    requires WellFormed(g) && Shape(g, st) && FinishedSeen(g, st)
    requires |st.work| > 0
    requires var top := st.work[|st.work| - 1]; top.1 < |g[top.0]|
    ensures Shape(g, Advance(st)) && FinishedSeen(g, Advance(st))
  {
    AdvanceShape(g, st);
    var t := Advance(st);
    forall v | Gray(st, v) ensures Gray(t, v) {
      var i :| 0 <= i < |st.work| && st.work[i].0 == v;
      assert t.work[i].0 == v;
    }
  }

  lemma AdvanceDown(g: Graph, e: set<(nat, nat)>, st: State)
    requires Shape(g, st) && ReachesDown(g, e, st) && |st.work| > 0
    requires var top := st.work[|st.work| - 1]; top.1 < |g[top.0]|
    ensures Shape(g, Advance(st)) && ReachesDown(g, e, Advance(st))
  {
    AdvanceShape(g, st);
    var t := Advance(st);
    forall y | y in t.onStack ensures Anchored(g, e, t, y) {
      assert Anchored(g, e, st, y);
      var i :| 0 <= i < |st.work| && st.index[st.work[i].0] <= st.index[y] && Reaches(e, y, st.work[i].0);
      assert t.work[i].0 == st.work[i].0;
    }
  }

  lemma AdvanceLowSound(g: Graph, e: set<(nat, nat)>, st: State)
    requires Shape(g, st) && LowSound(g, e, st) && |st.work| > 0
    requires var top := st.work[|st.work| - 1]; top.1 < |g[top.0]|
    ensures Shape(g, Advance(st)) && LowSound(g, e, Advance(st))
  {
    AdvanceShape(g, st);
    var t := Advance(st);
    forall i | 0 <= i < |t.work|
      ensures t.low[t.work[i].0] <= t.index[t.work[i].0] && LowWitness(g, e, t, t.work[i].0)
    {
      assert t.work[i].0 == st.work[i].0;
      assert LowWitness(g, e, st, st.work[i].0);
    }
  }

  /** The edge just examined, seen as reachability. */
  lemma TopReachesSuccessor(g: Graph, u: nat, p: nat)
    requires u < |g| && p < |g[u]|
    ensures Reaches(EdgeSet(g), u, g[u][p])
  {
    assert (u, g[u][p]) in EdgeSet(g);
    ReachesEdge(EdgeSet(g), u, g[u][p]);
  }

  lemma AdvanceExamined(g: Graph, st: State, w: nat)
    requires WellFormed(g) && Shape(g, st) && StackOrdered(g, st) && ExaminedSeen(g, st, -1) && LowOwn(g, st)
    requires |st.work| > 0 && Shape(g, Advance(st))
    requires var top := st.work[|st.work| - 1]; top.1 < |g[top.0]| && g[top.0][top.1] == w
    ensures ExaminedSeen(g, Advance(st), w)
    ensures st.index[w] != 0 ==> ExaminedSeen(g, Advance(st), -1)
    ensures w !in st.onStack || st.low[st.work[|st.work| - 1].0] <= st.index[w] ==> LowOwn(g, Advance(st))
  {
    var t := Advance(st);
    var d := |st.work| - 1;
    assert forall i :: 0 <= i < |st.work| ==> t.work[i].0 == st.work[i].0;
    assert forall i :: 0 <= i < d ==> t.work[i] == st.work[i];
    forall i, k | 0 <= i < |t.work| && 0 <= k < t.work[i].1
      ensures g[t.work[i].0][k] == w || (k < st.work[i].1 && t.index[g[t.work[i].0][k]] != 0)
    {
      if i == d && k == st.work[d].1 {
      } else {
        assert k < st.work[i].1;
      }
    }
  }

  lemma ExamineNewInv(g: Graph, st: State)
    requires Inv(g, st) && |st.work| > 0
    requires var top := st.work[|st.work| - 1]; top.1 < |g[top.0]| && st.index[g[top.0][top.1]] == 0
    ensures Inv(g, Examine(g, st))
  {
    var d := |st.work| - 1;
    var u, p := st.work[d].0, st.work[d].1;
    var w := g[u][p];
    var t := Advance(st);
    AdvanceKeeps(g, EdgeSet(g), st);
    AdvanceFinished(g, st);
    AdvanceDown(g, EdgeSet(g), st);
    AdvanceLowSound(g, EdgeSet(g), st);
    TopReachesSuccessor(g, u, p);
    AdvanceExamined(g, st, w);
    VisitInv(g, t, w);
  }

  lemma LowerSound(g: Graph, e: set<(nat, nat)>, st: State, w: nat)
    requires Shape(g, st) && LowSound(g, e, st) && |st.work| > 0
    requires w in st.onStack && Reaches(e, st.work[|st.work| - 1].0, w)
    ensures var u := st.work[|st.work| - 1].0;
      var t := st.(low := st.low[u := Min(st.low[u], st.index[w])]);
      Shape(g, t) && LowSound(g, e, t)
  {
    hide Reaches;
    var u := st.work[|st.work| - 1].0;
    var t := st.(low := st.low[u := Min(st.low[u], st.index[w])]);
    forall i | 0 <= i < |t.work|
      ensures t.low[t.work[i].0] <= t.index[t.work[i].0] && LowWitness(g, e, t, t.work[i].0)
    {
      assert LowWitness(g, e, st, st.work[i].0);
      if t.low[t.work[i].0] != st.low[st.work[i].0] {
        assert t.work[i].0 == u && w in t.onStack && t.index[w] == t.low[u];
      }
    }
  }

  lemma LowerFinished(g: Graph, st: State, w: nat)
    requires WellFormed(g) && Shape(g, st) && LowFinished(g, st) && |st.work| > 0 && w in st.onStack
    requires var u := st.work[|st.work| - 1].0; Shape(g, st.(low := st.low[u := Min(st.low[u], st.index[w])]))
    ensures var u := st.work[|st.work| - 1].0; LowFinished(g, st.(low := st.low[u := Min(st.low[u], st.index[w])]))
  {
    var u := st.work[|st.work| - 1].0;
    var t := st.(low := st.low[u := Min(st.low[u], st.index[w])]);
    forall i, y, k | FinishedUnder(g, t, i, y) && 0 <= k < |g[y]| && g[y][k] in t.onStack
      ensures t.low[t.work[i].0] <= t.index[g[y][k]]
    {
      assert FinishedUnder(g, st, i, y);
    }
  }

  /** Lowering the low of the top node to the index of something it reaches on the stack. */
  lemma LowerKeeps(g: Graph, e: set<(nat, nat)>, st: State, w: nat)
    requires WellFormed(g) && Shape(g, st) && LowSound(g, e, st) && LowFinished(g, st)
    requires |st.work| > 0 && WorkOrdered(g, st) && StackOrdered(g, st)
    requires w in st.onStack && Reaches(e, st.work[|st.work| - 1].0, w)
    ensures var u := st.work[|st.work| - 1].0;
      var t := st.(low := st.low[u := Min(st.low[u], st.index[w])]);
      Shape(g, t) && LowSound(g, e, t) && LowFinished(g, t)
  {
    hide Reaches, LowSound, LowFinished;
    LowerSound(g, e, st, w);
    LowerFinished(g, st, w);
  }

  /** What does not mention low is indifferent to it. */
  lemma LowerFrame(g: Graph, e: set<(nat, nat)>, st: State, s: State)
    requires WellFormed(g) && Shape(g, st) && Shape(g, s) && s == st.(low := s.low)
    requires StackOrdered(g, st) && WorkOrdered(g, st) && ExaminedSeen(g, st, -1) && FinishedSeen(g, st)
    requires ReachesUp(g, e, st) && ReachesDown(g, e, st) && Covered(g, st) && LowOwn(g, st)
    requires forall v :: 0 <= v < |g| ==> s.low[v] <= st.low[v]
    ensures StackOrdered(g, s) && WorkOrdered(g, s) && ExaminedSeen(g, s, -1) && FinishedSeen(g, s)
    ensures ReachesUp(g, e, s) && ReachesDown(g, e, s) && Covered(g, s) && LowOwn(g, s)
  {
    forall v | 0 <= v < |g| && Gray(st, v) ensures Gray(s, v) { }
    forall y | y in s.onStack ensures Anchored(g, e, s, y) {
      assert Anchored(g, e, st, y);
    }
    assert forall v :: Done(g, s, v) <==> Done(g, st, v);
  }

  lemma LowerThenAdvance(g: Graph, st: State)
    requires Inv(g, st) && |st.work| > 0
    requires var top := st.work[|st.work| - 1]; top.1 < |g[top.0]| && g[top.0][top.1] in st.onStack
    ensures Inv(g, Examine(g, st))
  {
    var e := EdgeSet(g);
    var u, p := st.work[|st.work| - 1].0, st.work[|st.work| - 1].1;
    var w := g[u][p];
    TopReachesSuccessor(g, u, p);
    LowerKeeps(g, e, st, w);
    var s := st.(low := st.low[u := Min(st.low[u], st.index[w])]);
    LowerFrame(g, e, st, s);
    AdvanceKeeps(g, e, s);
    AdvanceFinished(g, s);
    AdvanceDown(g, e, s);
    AdvanceLowSound(g, e, s);
    AdvanceExamined(g, s, w);
    assert Examine(g, st) == Advance(s);
  }

  lemma ExamineSeenInv(g: Graph, st: State)
    requires Inv(g, st) && |st.work| > 0
    requires var top := st.work[|st.work| - 1]; top.1 < |g[top.0]| && st.index[g[top.0][top.1]] != 0
    ensures Inv(g, Examine(g, st))
  {
    var d := |st.work| - 1;
    var u, p := st.work[d].0, st.work[d].1;
    var w := g[u][p];
    AdvanceKeeps(g, EdgeSet(g), st);
    AdvanceFinished(g, st);
    AdvanceDown(g, EdgeSet(g), st);
    AdvanceLowSound(g, EdgeSet(g), st);
    AdvanceExamined(g, st, w);
    if w in st.onStack {
      TopReachesSuccessor(g, u, p);
      LowerThenAdvance(g, st);
    }
  }

  lemma ExamineInv(g: Graph, st: State)
    requires Inv(g, st) && |st.work| > 0
    requires var top := st.work[|st.work| - 1]; top.1 < |g[top.0]|
    ensures Inv(g, Examine(g, st))
  {
    var top := st.work[|st.work| - 1];
    if st.index[g[top.0][top.1]] == 0 {
      ExamineNewInv(g, st);
    } else {
      ExamineSeenInv(g, st);
    }
  }

  // ---------- leaving a node that stays on the stack ----------

  ghost predicate ReadyToLeave(g: Graph, st: State)
    requires Shape(g, st)
  {
    |st.work| > 0 && var top := st.work[|st.work| - 1]; top.1 == |g[top.0]|
  }

  /** A node left on the stack reaches a node below it that is still being explored. */
  lemma LeavesAnAnchor(g: Graph, e: set<(nat, nat)>, st: State) returns (i: nat)
    requires Shape(g, st) && ReachesDown(g, e, st) && LowSound(g, e, st) && WorkOrdered(g, st)
    requires |st.work| > 0
    requires var u := st.work[|st.work| - 1].0; st.low[u] < st.index[u]
    ensures var u := st.work[|st.work| - 1].0;
      i < |st.work| - 1 && st.index[st.work[i].0] < st.index[u] && Reaches(e, u, st.work[i].0)
  {
    var u := st.work[|st.work| - 1].0;
    assert LowWitness(g, e, st, u);
    var z :| z in st.onStack && st.index[z] == st.low[u] && Reaches(e, u, z);
    assert Anchored(g, e, st, z);
    i :| 0 <= i < |st.work| && st.index[st.work[i].0] <= st.index[z] && Reaches(e, z, st.work[i].0);
    ReachesTransitive(e, u, z, st.work[i].0);
  }

  lemma PopShape(g: Graph, st: State)
    requires Shape(g, st) && WorkOrdered(g, st) && StackOrdered(g, st) && |st.work| > 0
    ensures var t := PopWork(st); Shape(g, t) && WorkOrdered(g, t) && StackOrdered(g, t)
    ensures PopWork(st).work == st.work[..|st.work| - 1]
  {
    var t := PopWork(st);
    assert t.work == st.work[..|st.work| - 1];
  }

  lemma PopSeen(g: Graph, st: State)
    requires WellFormed(g) && Shape(g, st) && ReadyToLeave(g, st) && Shape(g, PopWork(st))
    requires PopWork(st).work == st.work[..|st.work| - 1]
    requires ExaminedSeen(g, st, -1) && FinishedSeen(g, st)
    ensures ExaminedSeen(g, PopWork(st), -1) && FinishedSeen(g, PopWork(st))
  {
    var t := PopWork(st);
    var d := |st.work| - 1;
    assert forall i :: 0 <= i < d ==> t.work[i] == st.work[i];
    forall v, k | 0 <= v < |g| && t.index[v] != 0 && !Gray(t, v) && 0 <= k < |g[v]|
      ensures t.index[g[v][k]] != 0
    {
      if v == st.work[d].0 {
        assert k < st.work[d].1;
      } else {
        forall i | 0 <= i < |st.work| ensures st.work[i].0 != v {
          assert i < d ==> t.work[i].0 == st.work[i].0;
        }
        assert !Gray(st, v);
      }
    }
  }

  lemma PopDown(g: Graph, e: set<(nat, nat)>, st: State)
    requires Shape(g, st) && |st.work| > 0 && Shape(g, PopWork(st)) && WorkOrdered(g, st)
    requires PopWork(st).work == st.work[..|st.work| - 1]
    requires ReachesDown(g, e, st) && LowSound(g, e, st)
    requires var u := st.work[|st.work| - 1].0; st.low[u] < st.index[u]
    ensures ReachesDown(g, e, PopWork(st))
  {
    var t := PopWork(st);
    var d := |st.work| - 1;
    var u := st.work[d].0;
    var a := LeavesAnAnchor(g, e, st);
    assert t.work[a].0 == st.work[a].0;
    forall y | y in t.onStack ensures Anchored(g, e, t, y) {
      assert Anchored(g, e, st, y);
      var i :| 0 <= i < |st.work| && st.index[st.work[i].0] <= st.index[y] && Reaches(e, y, st.work[i].0);
      if i == d {
        ReachesTransitive(e, y, u, st.work[a].0);
      } else {
        assert t.work[i].0 == st.work[i].0;
      }
    }
  }

  lemma PopLowSound(g: Graph, e: set<(nat, nat)>, st: State)
    requires Shape(g, st) && |st.work| > 0 && Shape(g, PopWork(st)) && WorkOrdered(g, st)
    requires PopWork(st).work == st.work[..|st.work| - 1]
    requires ReachesUp(g, e, st) && LowSound(g, e, st)
    ensures LowSound(g, e, PopWork(st))
  {
    var t := PopWork(st);
    var d := |st.work| - 1;
    var u := st.work[d].0;
    forall i | 0 <= i < |t.work|
      ensures t.low[t.work[i].0] <= t.index[t.work[i].0] && LowWitness(g, e, t, t.work[i].0)
    {
      var x := st.work[i].0;
      assert t.work[i].0 == x;
      assert LowWitness(g, e, st, x);
      if t.low[x] != st.low[x] {
        assert LowWitness(g, e, st, u);
        var z :| z in st.onStack && st.index[z] == st.low[u] && Reaches(e, u, z);
        assert st.index[x] < st.index[u];
        ReachesTransitive(e, x, u, z);
        assert z in t.onStack && t.index[z] == t.low[x];
      }
    }
  }

  lemma PopLow(g: Graph, st: State)
    requires Shape(g, st) && |st.work| > 0
    ensures var t := PopWork(st);
      |t.low| == |st.low| && forall v :: 0 <= v < |st.low| ==> t.low[v] <= st.low[v]
  {
  }

  lemma PopLowOwn(g: Graph, st: State)
    requires WellFormed(g) && Shape(g, st) && |st.work| > 0 && Shape(g, PopWork(st)) && LowOwn(g, st)
    requires PopWork(st).work == st.work[..|st.work| - 1]
    ensures LowOwn(g, PopWork(st))
  {
    var t := PopWork(st);
    PopLow(g, st);
    assert forall i :: 0 <= i < |t.work| ==> t.work[i] == st.work[i];
  }

  lemma PopLowFinished(g: Graph, st: State)
    requires WellFormed(g) && Shape(g, st) && ReadyToLeave(g, st) && Shape(g, PopWork(st))
    requires WorkOrdered(g, st)
    requires PopWork(st).work == st.work[..|st.work| - 1]
    requires LowOwn(g, st) && LowFinished(g, st)
    requires forall y :: y in st.onStack && st.index[y] == st.index[st.work[|st.work| - 1].0] ==>
        y == st.work[|st.work| - 1].0
    ensures LowFinished(g, PopWork(st))
  {
    var t := PopWork(st);
    var d := |st.work| - 1;
    var u := st.work[d].0;
    PopLow(g, st);
    assert forall i :: 0 <= i < d ==> t.work[i] == st.work[i];
    forall i, y, k | FinishedUnder(g, t, i, y) && 0 <= k < |g[y]| && g[y][k] in t.onStack
      ensures t.low[t.work[i].0] <= t.index[g[y][k]]
    {
      assert i + 1 < d ==> t.work[i + 1] == st.work[i + 1];
      if FinishedUnder(g, st, i, y) {
      } else {
        assert i == d - 1 && st.index[y] >= st.index[u];
        assert t.low[t.work[i].0] <= st.low[u];
        if st.index[y] > st.index[u] {
          assert FinishedUnder(g, st, d, y);
        } else {
          assert k < st.work[d].1;
        }
      }
    }
  }

  lemma StackInjective(g: Graph, st: State, x: nat, y: nat)
    requires Shape(g, st) && StackOrdered(g, st)
    requires x in st.onStack && y in st.onStack && st.index[x] == st.index[y]
    ensures x == y
  {
    var i :| 0 <= i < |st.stack| && st.stack[i] == x;
    var j :| 0 <= j < |st.stack| && st.stack[j] == y;
  }

  lemma PopFrame(g: Graph, e: set<(nat, nat)>, st: State)
    requires Shape(g, st) && |st.work| > 0 && Shape(g, PopWork(st))
    requires PopWork(st).work == st.work[..|st.work| - 1]
    requires ReachesUp(g, e, st) && Covered(g, st)
    ensures ReachesUp(g, e, PopWork(st)) && Covered(g, PopWork(st))
  {
    var t := PopWork(st);
    assert forall i :: 0 <= i < |t.work| ==> t.work[i] == st.work[i];
    assert forall v :: Done(g, t, v) <==> Done(g, st, v);
  }

  lemma StayInv(g: Graph, st: State)
    requires Inv(g, st) && ReadyToLeave(g, st)
    requires var u := st.work[|st.work| - 1].0; st.low[u] < st.index[u]
    ensures Inv(g, PopWork(st))
  {
    var e := EdgeSet(g);
    var t := PopWork(st);
    PopShape(g, st);
    PopSeen(g, st);
    PopDown(g, e, st);
    PopLowSound(g, e, st);
    var u := st.work[|st.work| - 1].0;
    forall y | y in st.onStack && st.index[y] == st.index[u] ensures y == u {
      StackInjective(g, st, y, u);
    }
    PopLowOwn(g, st);
    PopLowFinished(g, st);
    PopFrame(g, e, st);
  }

  // ---------- leaving a node that closes a component ----------

  /** The part of the stack from u upwards. */
  ghost predicate Above(g: Graph, st: State, u: nat, y: nat)
    requires Shape(g, st) && u < |g|
  {
    y in st.onStack && st.index[u] <= st.index[y]
  }

  ghost predicate ReadyToEmit(g: Graph, st: State)
    requires Shape(g, st)
  {
    ReadyToLeave(g, st) && var u := st.work[|st.work| - 1].0; st.low[u] == st.index[u]
  }

  lemma AbovePosition(g: Graph, st: State, u: nat, k: nat)
    requires Shape(g, st) && StackOrdered(g, st) && u in st.stack && u < |g| && k < |st.stack|
    ensures Position(st.stack, u) <= k <==> Above(g, st, u, st.stack[k])
  {
    var start := Position(st.stack, u);
    assert st.stack[start] == u;
    if k < start { assert st.index[st.stack[k]] < st.index[u]; }
    if k > start { assert st.index[u] < st.index[st.stack[k]]; }
  }

  /** What Emit does to the stack, in terms of discovery order. */
  lemma EmitOnStack(g: Graph, st: State, u: nat, y: nat)
    requires Shape(g, st) && StackOrdered(g, st) && u in st.onStack
    ensures y in Emit(st, u).onStack <==> y in st.onStack && !Above(g, st, u, y)
    ensures y in Emit(st, u).onStack ==> y in Emit(st, u).stack
  {
    var s := Emit(st, u);
    var start := Position(st.stack, u);
    if y in st.onStack {
      var k: nat :| k < |st.stack| && st.stack[k] == y;
      AbovePosition(g, st, u, k);
      if start <= k {
        assert y in set k | start <= k < |st.stack| :: st.stack[k];
      } else {
        forall j: nat | start <= j < |st.stack| ensures st.stack[j] != y {
          AbovePosition(g, st, u, j);
        }
        assert s.stack[k] == y;
      }
    }
  }

  lemma EmitComponent(g: Graph, st: State, u: nat, y: nat)
    requires Shape(g, st) && StackOrdered(g, st) && u in st.onStack
    ensures y in Emit(st, u).comps[|st.comps|] <==> Above(g, st, u, y)
  {
    var start := Position(st.stack, u);
    var comp := Emit(st, u).comps[|st.comps|];
    assert comp == Reverse(st.stack[start..]);
    assert forall k :: 0 <= k < |comp| ==> comp[k] == st.stack[|st.stack| - 1 - k];
    if y in comp {
      var k :| 0 <= k < |comp| && comp[k] == y;
      AbovePosition(g, st, u, |st.stack| - 1 - k);
    }
    if Above(g, st, u, y) {
      var k: nat :| k < |st.stack| && st.stack[k] == y;
      AbovePosition(g, st, u, k);
      assert comp[|st.stack| - 1 - k] == y;
    }
  }

  lemma EmitDistinct(g: Graph, st: State, u: nat)
    requires Shape(g, st) && StackOrdered(g, st) && u in st.onStack
    ensures var comp := Emit(st, u).comps[|st.comps|];
      |comp| > 0 && forall i, j :: 0 <= i < j < |comp| ==> comp[i] != comp[j]
  {
    var start := Position(st.stack, u);
    var comp := Emit(st, u).comps[|st.comps|];
    assert comp == Reverse(st.stack[start..]);
    assert forall k :: 0 <= k < |comp| ==> comp[k] == st.stack[|st.stack| - 1 - k];
  }

  lemma EmitStack(g: Graph, st: State, u: nat)
    requires Shape(g, st) && StackOrdered(g, st) && u in st.onStack
    ensures forall y {:trigger y in Emit(st, u).onStack} ::
      y in Emit(st, u).onStack <==> y in st.onStack && !Above(g, st, u, y)
    ensures forall y {:trigger y in Emit(st, u).onStack} ::
      y in Emit(st, u).onStack ==> y in Emit(st, u).stack
    ensures forall i :: 0 <= i < |Emit(st, u).stack| ==> Emit(st, u).stack[i] in Emit(st, u).onStack
  {
    forall y: nat ensures y in Emit(st, u).onStack <==> y in st.onStack && !Above(g, st, u, y)
      ensures y in Emit(st, u).onStack ==> y in Emit(st, u).stack
    {
      EmitOnStack(g, st, u, y);
    }
    forall i: nat | i < |Emit(st, u).stack| ensures Emit(st, u).stack[i] in Emit(st, u).onStack {
      AbovePosition(g, st, u, i);
      EmitOnStack(g, st, u, st.stack[i]);
    }
  }

  function Leave(g: Graph, st: State): (r: State)
    requires Shape(g, st) && |st.work| > 0
  {
    PopWork(Emit(st, st.work[|st.work| - 1].0))
  }

  /** Leaving a component's first node changes the stack and the work list only. */
  lemma LeaveFields(g: Graph, e: set<(nat, nat)>, st: State)
    requires Shape(g, st) && WorkOrdered(g, st) && LowSound(g, e, st) && ReadyToEmit(g, st)
    ensures var t := Leave(g, st); var u := st.work[|st.work| - 1].0;
      && t.index == st.index && t.low == st.low && t.work == st.work[..|st.work| - 1] && t.counter == st.counter
      && t.comps == Emit(st, u).comps && t.onStack == Emit(st, u).onStack && t.stack == Emit(st, u).stack
  {
    var d := |st.work| - 1;
    var u := st.work[d].0;
    var t := Leave(g, st);
    if d > 0 {
      var parent := st.work[d - 1].0;
      assert st.index[parent] < st.index[u];
      assert st.low[parent] <= st.index[parent];
      assert t.low == st.low;
    }
  }

  lemma LeaveKeepsShape(g: Graph, e: set<(nat, nat)>, st: State)
    requires Shape(g, st) && StackOrdered(g, st) && WorkOrdered(g, st) && LowSound(g, e, st) && ReadyToEmit(g, st)
    ensures Shape(g, Leave(g, st))
  {
    hide LowSound, Leave;
    var u := st.work[|st.work| - 1].0;
    LeaveFields(g, e, st);
    EmitStack(g, st, u);
    var t := Leave(g, st);
    forall i | 0 <= i < |t.work| ensures t.work[i].0 in t.onStack {
      assert t.work[i] == st.work[i];
      assert st.index[st.work[i].0] < st.index[u];
    }
  }

  lemma LeaveShape(g: Graph, e: set<(nat, nat)>, st: State)
    requires Shape(g, st) && StackOrdered(g, st) && WorkOrdered(g, st) && LowSound(g, e, st) && ReadyToEmit(g, st)
    ensures var t := Leave(g, st); Shape(g, t) && StackOrdered(g, t) && WorkOrdered(g, t)
    ensures var t := Leave(g, st); var u := st.work[|st.work| - 1].0;
      && t.index == st.index && t.low == st.low && t.work == st.work[..|st.work| - 1]
      && t.comps == Emit(st, u).comps && t.onStack == Emit(st, u).onStack
  {
    hide LowSound, Leave;
    LeaveFields(g, e, st);
    LeaveKeepsShape(g, e, st);
    var t := Leave(g, st);
    EmitStack(g, st, st.work[|st.work| - 1].0);
    assert forall i :: 0 <= i < |t.work| ==> t.work[i] == st.work[i];
    assert forall i :: 0 <= i < |t.stack| ==> t.stack[i] == st.stack[i];
  }

  lemma LeaveUp(g: Graph, e: set<(nat, nat)>, st: State)
    requires Shape(g, st) && StackOrdered(g, st) && WorkOrdered(g, st) && ReadyToEmit(g, st)
    requires ReachesUp(g, e, st) && LowSound(g, e, st)
    ensures Shape(g, Leave(g, st)) && ReachesUp(g, e, Leave(g, st))
  {
    LeaveShape(g, e, st);
    hide Leave, Emit, LowSound, Reaches;
    EmitStack(g, st, st.work[|st.work| - 1].0);
    var t := Leave(g, st);
    assert forall i :: 0 <= i < |t.work| ==> t.work[i] == st.work[i];
  }

  lemma LeaveDown(g: Graph, e: set<(nat, nat)>, st: State)
    requires Shape(g, st) && StackOrdered(g, st) && WorkOrdered(g, st) && ReadyToEmit(g, st)
    requires ReachesDown(g, e, st) && LowSound(g, e, st)
    ensures Shape(g, Leave(g, st)) && ReachesDown(g, e, Leave(g, st))
  {
    var d := |st.work| - 1;
    LeaveShape(g, e, st);
    var t := Leave(g, st);
    forall y | y in t.onStack ensures Anchored(g, e, t, y) {
      EmitOnStack(g, st, st.work[d].0, y);
      assert Anchored(g, e, st, y);
      var i :| 0 <= i < |st.work| && st.index[st.work[i].0] <= st.index[y] && Reaches(e, y, st.work[i].0);
      assert i != d;
      assert t.work[i].0 == st.work[i].0;
    }
  }

  lemma LeaveLowSound(g: Graph, e: set<(nat, nat)>, st: State)
    requires Shape(g, st) && StackOrdered(g, st) && WorkOrdered(g, st) && ReadyToEmit(g, st)
    requires LowSound(g, e, st)
    ensures Shape(g, Leave(g, st)) && LowSound(g, e, Leave(g, st))
  {
    LeaveShape(g, e, st);
    var u := st.work[|st.work| - 1].0;
    var t := Leave(g, st);
    forall i | 0 <= i < |t.work|
      ensures t.low[t.work[i].0] <= t.index[t.work[i].0] && LowWitness(g, e, t, t.work[i].0)
    {
      var x := st.work[i].0;
      assert t.work[i].0 == x;
      assert LowWitness(g, e, st, x) && st.index[x] < st.index[u];
      var z :| z in st.onStack && st.index[z] == st.low[x] && Reaches(e, x, z);
      EmitOnStack(g, st, u, z);
    }
  }

  lemma LeaveOwn(g: Graph, e: set<(nat, nat)>, st: State)
    requires WellFormed(g) && Shape(g, st) && StackOrdered(g, st) && WorkOrdered(g, st) && ReadyToEmit(g, st)
    requires LowSound(g, e, st) && LowOwn(g, st)
    ensures Shape(g, Leave(g, st)) && LowOwn(g, Leave(g, st))
  {
    LeaveShape(g, e, st);
    var t := Leave(g, st);
    forall i, k | 0 <= i < |t.work| && 0 <= k < t.work[i].1 && g[t.work[i].0][k] in t.onStack
      ensures t.low[t.work[i].0] <= t.index[g[t.work[i].0][k]]
    {
      assert t.work[i] == st.work[i];
      EmitOnStack(g, st, st.work[|st.work| - 1].0, g[t.work[i].0][k]);
    }
  }

  lemma LeaveFinishedUnder(g: Graph, e: set<(nat, nat)>, st: State, i: nat, y: nat)
    requires Shape(g, st) && StackOrdered(g, st) && WorkOrdered(g, st) && ReadyToEmit(g, st) && LowSound(g, e, st)
    ensures Shape(g, Leave(g, st)) && (FinishedUnder(g, Leave(g, st), i, y) ==> FinishedUnder(g, st, i, y))
  {
    LeaveShape(g, e, st);
    var t := Leave(g, st);
    if FinishedUnder(g, t, i, y) {
      assert t.work[i] == st.work[i];
      assert i + 1 < |t.work| ==> t.work[i + 1] == st.work[i + 1];
      EmitOnStack(g, st, st.work[|st.work| - 1].0, y);
    }
  }

  lemma LeaveFinished(g: Graph, e: set<(nat, nat)>, st: State)
    requires WellFormed(g) && Shape(g, st) && StackOrdered(g, st) && WorkOrdered(g, st) && ReadyToEmit(g, st)
    requires LowSound(g, e, st) && LowFinished(g, st)
    ensures Shape(g, Leave(g, st)) && LowFinished(g, Leave(g, st))
  {
    LeaveShape(g, e, st);
    var t := Leave(g, st);
    forall i, y, k | FinishedUnder(g, t, i, y) && 0 <= k < |g[y]| && g[y][k] in t.onStack
      ensures t.low[t.work[i].0] <= t.index[g[y][k]]
    {
      LeaveFinishedUnder(g, e, st, i, y);
      EmitOnStack(g, st, st.work[|st.work| - 1].0, g[y][k]);
    }
  }

  lemma LeaveExamined(g: Graph, st: State, t: State)
    requires WellFormed(g) && Shape(g, st) && Shape(g, t) && |st.work| > 0 && ExaminedSeen(g, st, -1)
    requires t.index == st.index && t.work == st.work[..|st.work| - 1]
    ensures ExaminedSeen(g, t, -1)
  {
    assert forall i :: 0 <= i < |t.work| ==> t.work[i] == st.work[i];
  }

  lemma LeaveFinishedSeen(g: Graph, st: State, t: State)
    requires WellFormed(g) && Shape(g, st) && Shape(g, t) && ReadyToEmit(g, st) && ExaminedSeen(g, st, -1)
    requires FinishedSeen(g, st)
    requires t.index == st.index && t.work == st.work[..|st.work| - 1]
    ensures FinishedSeen(g, t)
  {
    var d := |st.work| - 1;
    forall v, k | 0 <= v < |g| && t.index[v] != 0 && !Gray(t, v) && 0 <= k < |g[v]|
      ensures t.index[g[v][k]] != 0
    {
      if v == st.work[d].0 {
        assert k < st.work[d].1;
      } else {
        forall i | 0 <= i < |st.work| ensures st.work[i].0 != v {
          assert i < d ==> t.work[i].0 == st.work[i].0;
        }
        assert !Gray(st, v);
      }
    }
  }

  lemma LeaveSeen(g: Graph, e: set<(nat, nat)>, st: State)
    requires WellFormed(g) && Shape(g, st) && StackOrdered(g, st) && WorkOrdered(g, st) && ReadyToEmit(g, st)
    requires LowSound(g, e, st) && ExaminedSeen(g, st, -1) && FinishedSeen(g, st)
    ensures Shape(g, Leave(g, st)) && ExaminedSeen(g, Leave(g, st), -1) && FinishedSeen(g, Leave(g, st))
  {
    LeaveShape(g, e, st);
    hide Leave, Emit, LowSound;
    LeaveExamined(g, st, Leave(g, st));
    LeaveFinishedSeen(g, st, Leave(g, st));
  }

  /** The closing node and everything above it reach each other. */
  lemma AboveMutual(g: Graph, e: set<(nat, nat)>, st: State, y: nat)
    requires Shape(g, st) && WorkOrdered(g, st) && ReachesUp(g, e, st) && ReachesDown(g, e, st) && |st.work| > 0
    requires Above(g, st, st.work[|st.work| - 1].0, y)
    ensures Reaches(e, st.work[|st.work| - 1].0, y) && Reaches(e, y, st.work[|st.work| - 1].0)
  {
    var u := st.work[|st.work| - 1].0;
    assert Anchored(g, e, st, y);
    var i :| 0 <= i < |st.work| && st.index[st.work[i].0] <= st.index[y] && Reaches(e, y, st.work[i].0);
    assert st.index[st.work[i].0] <= st.index[u];
    assert Reaches(e, st.work[i].0, u);
    ReachesTransitive(e, y, st.work[i].0, u);
  }

  /** Every edge out of a closing segment stays in it or ends in a finished component. */
  lemma AboveSuccessor(g: Graph, st: State, y: nat, k: nat)
    requires WellFormed(g) && Shape(g, st) && StackOrdered(g, st) && WorkOrdered(g, st) && ReadyToEmit(g, st)
    requires ExaminedSeen(g, st, -1) && FinishedSeen(g, st) && LowOwn(g, st) && LowFinished(g, st)
    requires Above(g, st, st.work[|st.work| - 1].0, y) && k < |g[y]|
    ensures Above(g, st, st.work[|st.work| - 1].0, g[y][k]) || Done(g, st, g[y][k])
  {
    var d := |st.work| - 1;
    var u := st.work[d].0;
    if y == u {
      assert k < st.work[d].1;
    } else {
      if st.index[y] == st.index[u] { StackInjective(g, st, y, u); }
      assert FinishedUnder(g, st, d, y);
      assert !Gray(st, y);
    }
  }

  /** Finished components have no edges back. */
  lemma DoneSuccessor(g: Graph, st: State, v: nat, k: nat)
    requires WellFormed(g) && Shape(g, st) && Covered(g, st) && SinksFirst(g, st.comps)
    requires Done(g, st, v) && k < |g[v]|
    ensures Done(g, st, g[v][k])
  {
    assert InComps(st.comps, v);
    var i :| 0 <= i < |st.comps| && v in st.comps[i];
    assert InComps(st.comps[..i + 1], g[v][k]);
    var j :| 0 <= j < i + 1 && g[v][k] in st.comps[..i + 1][j];
    assert g[v][k] in st.comps[j];
    assert InComps(st.comps, g[v][k]);
  }

  lemma EdgeSetAt(g: Graph, x: nat, y: nat) returns (k: nat)
    requires (x, y) in EdgeSet(g)
    ensures x < |g| && k < |g[x]| && g[x][k] == y
  {
    k :| x < |g| && k < |g[x]| && g[x][k] == y;
  }

  lemma DoneClosed(g: Graph, st: State)
    requires WellFormed(g) && Shape(g, st) && Covered(g, st) && SinksFirst(g, st.comps)
    ensures Closed(EdgeSet(g), set v: nat | v < |g| && Done(g, st, v))
  {
    forall x, y | (x, y) in EdgeSet(g) && x < |g| && Done(g, st, x) ensures y < |g| && Done(g, st, y) {
      var k := EdgeSetAt(g, x, y);
      DoneSuccessor(g, st, x, k);
    }
  }

  lemma AboveClosed(g: Graph, st: State)
    requires Inv(g, st) && ReadyToEmit(g, st)
    ensures var u := st.work[|st.work| - 1].0;
      Closed(EdgeSet(g), set v: nat | v < |g| && (Above(g, st, u, v) || Done(g, st, v)))
  {
    var u := st.work[|st.work| - 1].0;
    forall x, y | (x, y) in EdgeSet(g) && x < |g| && (Above(g, st, u, x) || Done(g, st, x))
      ensures y < |g| && (Above(g, st, u, y) || Done(g, st, y))
    {
      var k := EdgeSetAt(g, x, y);
      if Done(g, st, x) { DoneSuccessor(g, st, x, k); } else { AboveSuccessor(g, st, x, k); }
    }
  }

  /** The closing segment is a whole strongly connected component. */
  lemma AboveIsComponent(g: Graph, st: State, x: nat, v: nat)
    requires Inv(g, st) && ReadyToEmit(g, st)
    requires Above(g, st, st.work[|st.work| - 1].0, x)
    ensures Above(g, st, st.work[|st.work| - 1].0, v) <==> Reaches(EdgeSet(g), x, v) && Reaches(EdgeSet(g), v, x)
  {
    var e := EdgeSet(g);
    var u := st.work[|st.work| - 1].0;
    AboveMutual(g, e, st, x);
    if Above(g, st, u, v) {
      AboveMutual(g, e, st, v);
      ReachesTransitive(e, x, u, v);
      ReachesTransitive(e, v, u, x);
    } else if Reaches(e, x, v) && Reaches(e, v, x) {
      var region := set v: nat | v < |g| && (Above(g, st, u, v) || Done(g, st, v));
      var finished := set v: nat | v < |g| && Done(g, st, v);
      AboveClosed(g, st);
      DoneClosed(g, st);
      assert x in region;
      ReachesStaysInClosed(e, region, x, v);
      if v in finished {
        ReachesStaysInClosed(e, finished, v, x);
      }
    }
  }

  lemma LeaveComponents(g: Graph, st: State)
    requires Inv(g, st) && ReadyToEmit(g, st)
    ensures Components(g, EdgeSet(g), Leave(g, st).comps)
  {
    var e := EdgeSet(g);
    var u := st.work[|st.work| - 1].0;
    LeaveShape(g, e, st);
    EmitDistinct(g, st, u);
    var comps := Leave(g, st).comps;
    var comp := comps[|st.comps|];
    assert comps == st.comps + [comp];
    forall y ensures y in comp <==> Above(g, st, u, y) { EmitComponent(g, st, u, y); }
    assert IsComponent(g, e, comp) by {
      forall x, v: nat | x in comp ensures v in comp <==> Reaches(e, x, v) && Reaches(e, v, x) {
        AboveIsComponent(g, st, x, v);
      }
    }
    forall i, j, v | 0 <= i < j < |comps| && v in comps[i] ensures v !in comps[j] {
      if j == |st.comps| {
        assert InComps(st.comps, v);
        assert Done(g, st, v);
      }
    }
  }

  lemma InCompsGrows(comps: seq<seq<nat>>, comp: seq<nat>, v: nat)
    ensures InComps(comps + [comp], v) <==> InComps(comps, v) || v in comp
  {
    var all := comps + [comp];
    assert all[|comps|] == comp;
    if InComps(comps, v) {
      var i :| 0 <= i < |comps| && v in comps[i];
      assert v in all[i];
    }
  }

  lemma LeaveCovered(g: Graph, st: State)
    requires Inv(g, st) && ReadyToEmit(g, st) && Shape(g, Leave(g, st))
    ensures Covered(g, Leave(g, st)) && SinksFirst(g, Leave(g, st).comps)
  {
    var u := st.work[|st.work| - 1].0;
    LeaveShape(g, EdgeSet(g), st);
    EmitStack(g, st, u);
    var t := Leave(g, st);
    var comp := t.comps[|st.comps|];
    assert t.comps == st.comps + [comp];
    forall y ensures y in comp <==> Above(g, st, u, y) { EmitComponent(g, st, u, y); }
    forall v ensures InComps(t.comps, v) <==> Done(g, t, v) {
      InCompsGrows(st.comps, comp, v);
      assert InComps(st.comps, v) <==> Done(g, st, v);
    }
    forall i, v, k | 0 <= i < |t.comps| && v in t.comps[i] && v < |g| && 0 <= k < |g[v]|
      ensures InComps(t.comps[..i + 1], g[v][k])
    {
      if i < |st.comps| {
        assert InComps(st.comps[..i + 1], g[v][k]);
        assert t.comps[..i + 1] == st.comps[..i + 1];
      } else {
        AboveSuccessor(g, st, v, k);
        assert t.comps[..i + 1] == st.comps + [comp];
        InCompsGrows(st.comps, comp, g[v][k]);
      }
    }
  }

  lemma LeaveInv(g: Graph, st: State)
    requires Inv(g, st) && ReadyToEmit(g, st)
    ensures Inv(g, Leave(g, st))
  {
    LeaveShape(g, EdgeSet(g), st);
    LeaveUp(g, EdgeSet(g), st);
    LeaveDown(g, EdgeSet(g), st);
    LeaveLowSound(g, EdgeSet(g), st);
    LeaveOwn(g, EdgeSet(g), st);
    LeaveFinished(g, EdgeSet(g), st);
    LeaveSeen(g, EdgeSet(g), st);
    LeaveComponents(g, st);
    LeaveCovered(g, st);
  }

  lemma LowAtMostIndex(g: Graph, e: set<(nat, nat)>, st: State, i: nat)
    requires Shape(g, st) && LowSound(g, e, st) && i < |st.work|
    ensures st.low[st.work[i].0] <= st.index[st.work[i].0]
  {
  }

  lemma RetreatInv(g: Graph, st: State)
    requires Inv(g, st) && ReadyToLeave(g, st)
    ensures Inv(g, Retreat(g, st))
  {
    var u := st.work[|st.work| - 1].0;
    LowAtMostIndex(g, EdgeSet(g), st, |st.work| - 1);
    if st.low[u] == st.index[u] {
      LeaveInv(g, st);
      assert Retreat(g, st) == Leave(g, st);
    } else {
      StayInv(g, st);
      assert Retreat(g, st) == PopWork(st);
    }
  }
}
