/** The component search of the in-memory graph: dictionaries keyed by node identity, a set for the
    stack, and resume positions saved only when the search goes deeper. It takes the same steps of
    the machine as the array version, so both report the same lists. */
module MemoryTarjan {
  import opened GraphRecords
  import opened TarjanMachine
  import opened TarjanComponents
  import opened ArrayTarjan

  function Neighbours(succ: map<string, seq<string>>, node: string): (r: seq<string>) {
    if node in succ then succ[node] else []
  }

  /** A node left for a successor resumes past its first neighbour. */
  ghost predicate Resumable(items: seq<(nat, nat)>) {
    forall i :: 0 <= i < |items| - 1 ==> items[i].1 > 0
  }

  lemma PendingTop(core: State, st: State)
    requires Pending(core, st)
    ensures st.work[|st.work| - 1].1 == 0
  {
  }

  lemma RetreatWork(g: Graph, st: State)
    requires Inv(g, st) && |st.work| > 0
    ensures Shape(g, st) && Retreat(g, st).work == st.work[..|st.work| - 1]
  {
  }

  lemma EmittedLast(st: State, u: nat)
    requires u in st.stack
    ensures var comp := Reverse(st.stack[Position(st.stack, u)..]); |comp| > 0 && comp[|comp| - 1] == u
    ensures Emit(st, u).comps == st.comps + [Reverse(st.stack[Position(st.stack, u)..])]
  {
  }

  lemma TopIsNumbered(g: Graph, st: State, i: nat)
    requires Inv(g, st) && i < |st.work|
    ensures var u := st.work[i].0;
      u < |g| == |st.index| == |st.low| && st.index[u] != 0 && st.low[u] > 0 && u in st.stack
  {
    var u := st.work[i].0;
    assert u in st.onStack;
    assert LowWitness(g, EdgeSet(g), st, u);
  }

  lemma TopOfSame(s: seq<nat>, v: nat, left: nat)
    requires v in s && Position(s, v) <= left < |s| && s[left] == v
    ensures left == Position(s, v)
  {
  }

  class MemorySearch {
    const order: seq<string>
    const succ: map<string, seq<string>>
    ghost const g: Graph
    var indexOf: map<string, nat>
    var low: map<string, nat>
    var onStack: set<string>
    var stack: seq<string>
    var counter: nat
    var work: seq<(string, nat)>
    var cycles: seq<seq<string>>

    ghost predicate Layout() {
      && |g| == |order| && WellFormed(g)
      && (forall i, j :: 0 <= i < j < |order| ==> order[i] != order[j])
      && (forall u :: 0 <= u < |order| ==> |Neighbours(succ, order[u])| == |g[u]|)
      && (forall u, k :: 0 <= u < |order| && 0 <= k < |g[u]| ==> Neighbours(succ, order[u])[k] == order[g[u][k]])
    }

    ghost predicate HoldsNumbers(s: State)
      requires Layout()
      reads `indexOf, `low, `counter
    {
      && counter == s.counter && |s.index| == |g| && |s.low| == |g|
      && (forall v :: 0 <= v < |g| ==> (order[v] in indexOf <==> s.index[v] != 0))
      && (forall v :: 0 <= v < |g| && s.index[v] != 0 ==> indexOf[order[v]] + 1 == s.index[v])
      && (forall v :: 0 <= v < |g| && s.index[v] != 0 ==> order[v] in low && low[order[v]] + 1 == s.low[v])
    }

    ghost predicate HoldsStack(s: State)
      requires Layout()
      reads `onStack, `stack
    {
      && |stack| == |s.stack|
      && (forall v :: 0 <= v < |g| ==> (order[v] in onStack <==> v in s.onStack))
      && (forall i :: 0 <= i < |s.stack| ==> s.stack[i] < |g| && stack[i] == order[s.stack[i]])
    }

    ghost predicate HoldsMarks(s: State)
      requires Layout()
      reads `indexOf, `low, `onStack, `stack, `counter
    {
      HoldsNumbers(s) && HoldsStack(s)
    }

    ghost predicate HoldsWork(items: seq<(nat, nat)>)
      requires Layout()
      reads `work
    {
      && |work| == |items|
      && (forall i :: 0 <= i < |work| ==> items[i].0 < |g| && work[i] == (order[items[i].0], items[i].1))
    }

    ghost predicate HoldsReport(comps: seq<seq<nat>>)
      requires Layout()
      reads `cycles
    {
      InOrder(order, Circulars(g, comps)) && cycles == NamesOfAll(order, Circulars(g, comps))
    }

    constructor (order: seq<string>, succ: map<string, seq<string>>, ghost g: Graph)
      ensures this.order == order && this.succ == succ && this.g == g
      ensures Layout() ==> HoldsMarks(Init(|g|)) && HoldsReport([])
    {
      this.order, this.succ, this.g := order, succ, g;
      indexOf, low, onStack, stack, counter, work, cycles := map[], map[], {}, [], 0, [], [];
    }

    lemma SameHolds(before: State, v: nat)
      requires Layout() && v < |before.index| == |before.low|
      requires HoldsStack(before.(stack := before.stack + [v], onStack := before.onStack + {v}))
      requires var c := before.counter + 1;
        HoldsNumbers(before.(index := before.index[v := c], low := before.low[v := c], counter := c))
      ensures HoldsMarks(Visit(before, v))
    {
    }

    lemma NodeIs(u: nat, v: nat)
      requires Layout() && u < |g| && v < |g|
      ensures order[u] == order[v] ==> u == v
    {
    }

    lemma LayoutSize()
      requires Layout()
      ensures |g| == |order| && WellFormed(g)
    {
    }

    method Stack(node: string, ghost v: nat, ghost before: State)
      requires Layout() && HoldsStack(before) && v < |g| && node == order[v]
      modifies `stack, `onStack
      ensures HoldsStack(before.(stack := before.stack + [v], onStack := before.onStack + {v}))
    {
      LayoutSize();
      forall x: nat | x < |g| ensures order[x] == node <==> x == v {
        if order[x] == node { NodeIs(v, x); }
      }
      hide Layout;
      stack := stack + [node];
      onStack := onStack + {node};
    }

    method Number(node: string, ghost v: nat, ghost before: State)
      requires Layout() && HoldsNumbers(before) && v < |g| && node == order[v] && before.index[v] == 0
      modifies `indexOf, `low, `counter
      ensures var c := before.counter + 1;
        HoldsNumbers(before.(index := before.index[v := c], low := before.low[v := c], counter := c))
    {
      LayoutSize();
      forall x: nat | x < |g| ensures order[x] == node <==> x == v {
        if order[x] == node { NodeIs(v, x); }
      }
      hide Layout;
      indexOf := indexOf[node := counter];
      low := low[node := counter];
      counter := counter + 1;
    }

    method Discover(ghost before: State, ghost v: nat, node: string)
      requires Layout() && HoldsMarks(before) && v < |g| && node == order[v] && before.index[v] == 0
      requires v !in before.onStack
      modifies `indexOf, `low, `onStack, `stack, `counter
      ensures HoldsMarks(Visit(before, v))
    {
      LayoutSize();
      hide Layout, HoldsStack, HoldsNumbers;
      Number(node, v, before);
      Stack(node, v, before);
      SameHolds(before, v);
    }

    lemma LowerIs(a: nat, b: nat, x: nat, y: nat)
      requires a + 1 == x && b + 1 == y
      ensures Min(a, b) + 1 == Min(x, y)
    {
    }

    lemma OnStackOf(v: nat, st: State)
      requires Layout() && HoldsMarks(st) && v < |g|
      ensures |g| == |order| && (order[v] in onStack <==> v in st.onStack)
    {
    }

    lemma MarkOf(v: nat, st: State)
      requires Layout() && HoldsMarks(st) && v < |g|
      ensures |st.index| == |g| && |st.low| == |g| && (order[v] in indexOf <==> st.index[v] != 0)
    {
    }

    lemma SameStack(s: State, t: State)
      requires Layout() && HoldsStack(s) && s.stack == t.stack && s.onStack == t.onStack
      ensures HoldsStack(t)
    {
    }

    method SetLow(node: string, ghost u: nat, value: nat, ghost st: State)
      requires Layout() && HoldsMarks(st) && u < |g| && node == order[u] && st.index[u] != 0
      modifies `low
      ensures HoldsMarks(st.(low := st.low[u := value + 1]))
    {
      LayoutSize();
      assert |st.low| == |g|;
      forall v: nat | v < |g| && order[v] == node ensures v == u { NodeIs(u, v); }
      SameStack(st, st.(low := st.low[u := value + 1]));
      hide Layout, HoldsStack;
      low := low[node := value];
    }

    lemma NumberOf(v: nat, st: State)
      requires Layout() && HoldsMarks(st) && v < |g| && v < |st.index| && st.index[v] != 0
      ensures order[v] in indexOf && order[v] in low && |st.low| == |g| == |st.index|
      ensures indexOf[order[v]] + 1 == st.index[v] && low[order[v]] + 1 == st.low[v]
    {
    }

    method Lower(ghost u: nat, ghost w: nat, node: string, next: string, ghost st: State)
      requires Layout() && HoldsMarks(st) && u < |g| && w < |g| && node == order[u] && next == order[w]
      requires st.index[u] != 0 && st.index[w] != 0 && st.low[u] > 0
      modifies `low
      ensures HoldsMarks(st.(low := if w in st.onStack then st.low[u := Min(st.low[u], st.index[w])] else st.low))
    {
      hide HoldsMarks, Layout, Min;
      MarkOf(u, st);
      NumberOf(u, st);
      NumberOf(w, st);
      OnStackOf(w, st);
      if next in onStack {
        LowerIs(low[node], indexOf[next], st.low[u], st.index[w]);
        SetLow(node, u, Min(low[node], indexOf[next]), st);
      }
    }

    lemma SameMarks(s: State, t: State)
      requires Layout() && HoldsMarks(s) && s == t.(work := s.work)
      ensures HoldsMarks(t)
    {
    }

    method NeighbourAt(node: string, ghost u: nat, k: nat) returns (next: string)
      requires Layout() && u < |g| && node == order[u] && k < |g[u]|
      ensures g[u][k] < |g| && next == order[g[u][k]]
    {
      next := Neighbours(succ, node)[k];
      assert g[u][k] < |g|;
    }

    /** The parent remembers where to resume, the successor starts at its first neighbour. */
    method GoDeeper(next: string, position: nat, ghost w: nat, ghost start: seq<(nat, nat)>,
                    ghost items: seq<(nat, nat)>)
      requires Layout() && HoldsWork(start) && |start| > 0 && w < |g| && next == order[w]
      requires |items| == |start| && items == start[|start| - 1 := (start[|start| - 1].0, position)]
      modifies `work
      ensures HoldsWork(items + [(w, 0)])
    {
      work := work[|work| - 1 := (work[|work| - 1].0, position)];
      work := work + [(next, 0)];
    }

    method Degree(node: string, ghost u: nat) returns (length: nat)
      requires Layout() && u < |g| && node == order[u]
      ensures length == |g[u]|
    {
      length := |Neighbours(succ, node)|;
    }

    /** Look at neighbours until one is undiscovered or none is left; only going deeper saves the place. */
    method Scan(node: string, ghost u: nat, position: nat, ghost start: State)
      returns (recursed: bool, ghost core: State, ghost st: State)
      requires Layout() && Inv(g, start) && |start.work| > 0 && HoldsMarks(start) && HoldsWork(start.work)
      requires start.work[|start.work| - 1] == (u, position) && u < |g| && node == order[u] && Resumable(start.work)
      modifies `work, `low
      ensures Inv(g, st) && Explore(g, st) == Explore(g, start) && st.comps == start.comps
      ensures !recursed ==>
          HoldsMarks(st) && HoldsWork(start.work) && ReadyToLeave(g, st) && Unseen(st) == Unseen(start)
      ensures !recursed ==>
        |st.work| == |start.work| && forall i :: 0 <= i < |st.work| ==> st.work[i].0 == start.work[i].0
      ensures !recursed ==> forall i :: 0 <= i < |st.work| - 1 ==> st.work[i] == start.work[i]
      ensures recursed ==> HoldsMarks(core) && HoldsWork(st.work) && Pending(core, st) && Unseen(st) < Unseen(start)
      ensures recursed ==> Resumable(st.work)
    {
      hide Inv, Explore, Unseen, HoldsMarks, HoldsWork, Step, Visit, Shape, WellFormed, SomethingLeft, ReadyToLeave;
      hide Pending, Min;
      hide Layout;
      st := start;
      core := start;
      recursed := false;
      var i := position;
      TopInRange(g, st);
      var length := Degree(node, u);
      while i < length
        invariant position <= i <= length == |g[u]|
        invariant Inv(g, st) && Explore(g, st) == Explore(g, start) && HoldsMarks(st) && HoldsWork(start.work)
        invariant st.comps == start.comps && st.index == start.index
        invariant st.work == start.work[|start.work| - 1 := (u, i)]
        invariant !recursed
      {
        ghost var w := g[u][i];
        var next := NeighbourAt(node, u, i);
        MarkOf(w, st);
        SameUnseen(start, st);
        if next !in indexOf {
          core := Advance(st);
          SameMarks(st, core);
          StepFound(g, st);
          GoDeeper(next, i + 1, w, start.work, core.work);
          st := Step(g, st);
          recursed := true;
          break;
        }
        StepSeen(g, st);
        TopIsNumbered(g, st, |st.work| - 1);
        Lower(u, w, node, next, st);
        SameMarks(st.(low := if w in st.onStack then st.low[u := Min(st.low[u], st.index[w])] else st.low),
          Step(g, st));
        st := Step(g, st);
        i := i + 1;
      }
      if !recursed {
        SameUnseen(start, st);
        NothingMore(g, st);
      }
    }

    ghost predicate Gone(s: seq<nat>, left: nat, v: nat)
      requires left <= |s|
    {
      v in s[left..]
    }

    /** The stack without its part from left on, which has been popped. */
    ghost predicate PoppedTo(st: State, left: nat)
      requires Layout() && left <= |st.stack|
      reads `stack, `onStack
    {
      && |stack| == left
      && (forall i :: 0 <= i < |st.stack| ==> st.stack[i] < |g|)
      && (forall i :: 0 <= i < left ==> stack[i] == order[st.stack[i]])
      && (forall v :: 0 <= v < |g| ==> (order[v] in onStack <==> v in st.onStack && !Gone(st.stack, left, v)))
    }

    lemma SliceDrop(s: seq<nat>, left: nat, v: nat)
      requires 0 < left <= |s|
      ensures v in s[left - 1..] <==> v == s[left - 1] || v in s[left..]
    {
      assert s[left - 1..] == [s[left - 1]] + s[left..];
    }

    method PopOne(ghost st: State, ghost left: nat) returns (w: string)
      requires Layout() && 0 < left <= |st.stack| && PoppedTo(st, left)
      modifies `stack, `onStack
      ensures PoppedTo(st, left - 1) && st.stack[left - 1] < |g| == |order| && w == order[st.stack[left - 1]]
    {
      LayoutSize();
      ghost var u := st.stack[left - 1];
      w := stack[|stack| - 1];
      forall v: nat | v < |g| ensures (order[v] == w <==> v == u)
        && (Gone(st.stack, left - 1, v) <==> v == u || Gone(st.stack, left, v)) {
        if order[v] == w { NodeIs(u, v); }
        SliceDrop(st.stack, left, v);
      }
      hide Layout, Gone;
      stack := stack[..|stack| - 1];
      onStack := onStack - {w};
    }

    lemma NothingPopped(st: State)
      requires Layout() && HoldsMarks(st)
      ensures HoldsNumbers(st) && PoppedTo(st, |st.stack|)
    {
    }

    lemma PoppedIsEmitted(st: State, u: nat)
      requires Layout() && u in st.stack && PoppedTo(st, Position(st.stack, u)) && HoldsNumbers(st)
      ensures HoldsMarks(Emit(st, u))
      ensures forall i :: 0 <= i < |st.stack| ==> st.stack[i] < |g|
    {
      forall v: nat ensures v in Emit(st, u).onStack <==> v in st.onStack && v !in st.stack[Position(st.stack, u)..] {
        EmitKeeps(st, u, v);
      }
    }

    /** Pop the component stack down to and including node. */
    method PopComponent(node: string, ghost u: nat, ghost st: State) returns (component: seq<string>)
      requires Layout() && HoldsMarks(st) && u in st.stack && u < |g| && node == order[u]
      modifies `stack, `onStack
      ensures HoldsMarks(Emit(st, u))
      ensures forall i :: 0 <= i < |st.stack| ==> st.stack[i] < |g|
      ensures component == Names(order, Reverse(st.stack[Position(st.stack, u)..]))
    {
      hide HoldsMarks, HoldsNumbers, PoppedTo, Layout, Position;
      ghost var start := Position(st.stack, u);
      PositionIs(st.stack, u);
      NothingPopped(st);
      component := [];
      ghost var left := |st.stack|;
      while true
        invariant start < left <= |st.stack| && PoppedTo(st, left) && HoldsNumbers(st)
        invariant |component| == |st.stack| - left
        invariant forall i :: left <= i < |st.stack| ==> st.stack[i] < |g| == |order|
        invariant forall i :: 0 <= i < |component| ==> component[i] == order[st.stack[|st.stack| - 1 - i]]
        decreases left
      {
        var w := PopOne(st, left);
        left := left - 1;
        component := component + [w];
        NodeIs(u, st.stack[left]);
        if w == node {
          break;
        }
      }
      TopOfSame(st.stack, u, left);
      PoppedIsEmitted(st, u);
    }

    lemma FeedsItself(u: nat, node: string)
      requires Layout() && u < |g| && node == order[u]
      ensures node in Neighbours(succ, node) <==> u in g[u]
    {
      if u in g[u] {
        var k :| 0 <= k < |g[u]| && g[u][k] == u;
        assert Neighbours(succ, order[u])[k] == node;
      }
      if node in Neighbours(succ, node) {
        var k :| 0 <= k < |g[u]| && Neighbours(succ, node)[k] == node;
        assert g[u][k] < |g|;
        NodeIs(u, g[u][k]);
      }
    }

    lemma ReportGrows(comps: seq<seq<nat>>, comp: seq<nat>)
      requires InOrder(order, Circulars(g, comps)) && forall i :: 0 <= i < |comp| ==> comp[i] < |order|
      ensures var r := Circulars(g, comps + [comp]);
        && r == (if Circular(g, comp) then Circulars(g, comps) + [comp] else Circulars(g, comps))
        && InOrder(order, r)
        && NamesOfAll(order, r) == if Circular(g, comp)
          then NamesOfAll(order, Circulars(g, comps)) + [Names(order, comp)] else NamesOfAll(order, Circulars(g, comps))
    {
      hide Circular;
      assert (comps + [comp])[..|comps|] == comps;
    }

    /** Keep the component if a value can loop around it. */
    method Report(component: seq<string>, node: string, ghost u: nat, ghost comp: seq<nat>, ghost comps: seq<seq<nat>>)
      requires Layout() && HoldsReport(comps) && u < |g| && node == order[u]
      requires |comp| > 0 && comp[|comp| - 1] == u && (forall i :: 0 <= i < |comp| ==> comp[i] < |g|)
      requires component == Names(order, comp)
      modifies `cycles
      ensures HoldsReport(comps + [comp])
    {
      FeedsItself(u, node);
      LayoutSize();
      hide Layout, Neighbours, Circulars, InOrder, NamesOfAll;
      ReportGrows(comps, comp);
      var feedsItself := node in Neighbours(succ, node);
      if |component| > 1 || feedsItself {
        cycles := cycles + [component];
      }
    }

    method PopItem(ghost items: seq<(nat, nat)>, ghost below: seq<(nat, nat)>)
      requires Layout() && HoldsWork(items) && |items| > 0 && below == items[..|items| - 1]
      modifies `work
      ensures HoldsWork(below) && |work| == |below|
    {
      work := work[..|work| - 1];
    }

    method LowerParent(node: string, parent: string, ghost u: nat, ghost p: nat, ghost st: State)
      requires Layout() && HoldsMarks(st) && u < |g| && p < |g| && node == order[u] && parent == order[p]
      requires st.index[u] != 0 && st.index[p] != 0 && st.low[u] > 0 && st.low[p] > 0
      modifies `low
      ensures HoldsMarks(st.(low := st.low[p := Min(st.low[p], st.low[u])]))
    {
      hide HoldsMarks, Layout, Min;
      MarkOf(u, st);
      NumberOf(u, st);
      NumberOf(p, st);
      LowerIs(low[parent], low[node], st.low[p], st.low[u]);
      SetLow(parent, p, Min(low[parent], low[node]), st);
    }

    lemma TopItem(items: seq<(nat, nat)>)
      requires Layout() && HoldsWork(items) && |items| > 0
      ensures |work| == |items| && items[|items| - 1].0 < |g|
      ensures work[|work| - 1] == (order[items[|items| - 1].0], items[|items| - 1].1)
    {
    }

    method Pop(node: string, ghost items: seq<(nat, nat)>, ghost st: State)
      requires Layout() && HoldsMarks(st) && HoldsWork(items) && |st.work| == |items| > 0
      requires forall i :: 0 <= i < |st.work| - 1 ==> st.work[i] == items[i]
      requires st.work[|st.work| - 1].0 < |g| && node == order[st.work[|st.work| - 1].0]
      requires forall i :: 0 <= i < |st.work| ==> st.work[i].0 < |g| && st.work[i].0 < |st.index| == |st.low|
      requires forall i :: 0 <= i < |st.work| ==> st.index[st.work[i].0] != 0 && st.low[st.work[i].0] > 0
      modifies `work, `low
      ensures HoldsMarks(PopWork(st)) && HoldsWork(PopWork(st).work) && PopWork(st).comps == st.comps
    {
      hide HoldsMarks, HoldsWork, Layout, Min;
      ghost var below := st.work[..|st.work| - 1];
      assert below == items[..|items| - 1];
      PopItem(items, below);
      if |work| > 0 {
        TopItem(below);
        var parent := work[|work| - 1].0;
        LowerParent(node, parent, st.work[|st.work| - 1].0, st.work[|st.work| - 2].0, st);
      }
      SameMarks(PopWork(st).(work := st.work), PopWork(st));
    }

    /** Close a component if node is its root. */
    method CloseIfRoot(node: string, ghost u: nat, ghost st: State) returns (ghost next: State)
      requires Layout() && HoldsMarks(st) && HoldsReport(st.comps) && u in st.stack && u < |g| && node == order[u]
      requires u < |st.index| == |st.low| && st.index[u] != 0
      modifies `stack, `onStack, `cycles
      ensures next == if st.low[u] == st.index[u] then Emit(st, u) else st
      ensures HoldsMarks(next) && HoldsReport(next.comps)
    {
      hide HoldsMarks, HoldsReport, Layout, Position;
      NumberOf(u, st);
      next := st;
      if low[node] == indexOf[node] {
        ghost var comp := Reverse(st.stack[Position(st.stack, u)..]);
        EmittedLast(st, u);
        var component := PopComponent(node, u, st);
        next := Emit(st, u);
        Report(component, node, u, comp, st.comps);
      }
    }

    /** Leave a node whose neighbours are all examined. */
    method Finish(node: string, ghost u: nat, ghost items: seq<(nat, nat)>, ghost st: State)
      requires Layout() && Inv(g, st) && ReadyToLeave(g, st) && HoldsMarks(st) && HoldsWork(items)
      requires HoldsReport(st.comps)
      requires |st.work| == |items| > 0 && (forall i :: 0 <= i < |st.work| - 1 ==> st.work[i] == items[i])
      requires st.work[|st.work| - 1].0 == u && u < |g| && node == order[u]
      modifies `work, `low, `stack, `onStack, `cycles
      ensures HoldsMarks(Retreat(g, st)) && HoldsWork(Retreat(g, st).work) && HoldsReport(Retreat(g, st).comps)
    {
      hide Inv, ReadyToLeave, HoldsMarks, HoldsWork, HoldsReport, Layout, Shape, PopWork, Position, Min;
      forall i | 0 <= i < |st.work|
        ensures st.work[i].0 < |g| && st.work[i].0 < |st.index| == |st.low| && st.index[st.work[i].0] != 0
        ensures st.low[st.work[i].0] > 0
        ensures st.work[i].0 in st.stack
      {
        TopIsNumbered(g, st, i);
      }
      TopIsNumbered(g, st, |st.work| - 1);
      ghost var next := CloseIfRoot(node, u, st);
      Pop(node, items, next);
    }

    lemma WorkSize(items: seq<(nat, nat)>)
      requires Layout() && HoldsWork(items)
      ensures |work| == |items|
    {
    }

    method StartWork(root: string, ghost r: nat)
      requires Layout() && r < |g| && root == order[r]
      modifies `work
      ensures HoldsWork([(r, 0)])
    {
      work := [(root, 0)];
    }

    /** Everything reachable from an undiscovered root. */
    method ExploreRoot(root: string, ghost r: nat, ghost start: State) returns (ghost st: State)
      requires Layout() && Inv(g, start) && start.work == [] && r < |g| && root == order[r]
      requires HoldsMarks(start) && HoldsReport(start.comps) && root !in indexOf
      modifies `indexOf, `low, `onStack, `stack, `counter, `work, `cycles
      ensures r < |start.index| == |g| && st == Explore(g, StartAt(g, start, r))
      ensures HoldsMarks(st) && HoldsReport(st.comps)
    {
      hide Inv, Explore, Unseen, HoldsMarks, HoldsWork, HoldsReport, Layout, Step, Visit, Retreat, Shape, WellFormed;
      hide ReadyToLeave, StartAt;
      MarkOf(r, start);
      RootPending(g, start, r);
      StartWork(root, r);
      ghost var core := start;
      st := StartAt(g, start, r);
      ghost var pending := true;
      while work != []
        invariant Inv(g, st) && Explore(g, st) == Explore(g, StartAt(g, start, r))
        invariant HoldsWork(st.work) && |work| == |st.work| && HoldsReport(st.comps)
        invariant if pending then HoldsMarks(core) && Pending(core, st) else HoldsMarks(st)
        invariant Resumable(st.work) && (|st.work| > 0 ==> (pending <==> st.work[|st.work| - 1].1 == 0))
        decreases Unseen(st), |st.work|
      {
        ghost var u := st.work[|st.work| - 1].0;
        TopItem(st.work);
        var node, position := work[|work| - 1].0, work[|work| - 1].1;
        if position == 0 {
          Discover(core, u, node);
          pending := false;
        }
        var recursed;
        ghost var next;
        ghost var scanned;
        recursed, next, scanned := Scan(node, u, position, st);
        if recursed {
          core := next;
          PendingTop(core, scanned);
          WorkSize(scanned.work);
          st := scanned;
          pending := true;
        } else {
          FinishStep(g, scanned);
          Finish(node, u, st.work, scanned);
          RetreatWork(g, scanned);
          st := Retreat(g, scanned);
          WorkSize(st.work);
        }
      }
      ExploreDone(g, st);
    }

    lemma SearchNone()
      requires WellFormed(g)
      ensures Search(g, 0) == Init(|g|)
    {
    }

    lemma ReportIsCycles(st: State)
      requires Layout() && HoldsReport(st.comps) && st == Search(g, |g|)
      ensures InOrder(order, Cycles(g)) && cycles == NamesOfAll(order, Cycles(g))
    {
    }

    /** Every node in turn as a root. */
    method Run()
      requires Layout() && HoldsMarks(Init(|g|)) && HoldsReport([])
      modifies `indexOf, `low, `onStack, `stack, `counter, `work, `cycles
      ensures InOrder(order, Cycles(g)) && cycles == NamesOfAll(order, Cycles(g))
    {
      hide Inv, Explore, HoldsMarks, HoldsWork, HoldsReport, Search, Layout;
      LayoutSize();
      SearchNone();
      ghost var st := Init(|g|);
      for r := 0 to |order|
        invariant st == Search(g, r) && HoldsMarks(st) && HoldsReport(st.comps)
      {
        var root := order[r];
        MarkOf(r, st);
        SearchStep(g, r);
        if root !in indexOf {
          st := ExploreRoot(root, r, st);
        }
      }
      ReportIsCycles(st);
    }
  }
}
