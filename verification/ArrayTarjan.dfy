/** The component search of the disk-backed store: integer arrays of length n, an explicit work
    stack and an explicit component stack, tied step by step to the machine. */
module ArrayTarjan {
  import opened Digraphs
  import opened TarjanMachine
  import opened TarjanComponents

  // ---------- room on the stacks ----------

  lemma {:induction false} DistinctFits(s: seq<nat>, n: nat)
    requires forall i :: 0 <= i < |s| ==> s[i] < n
    requires forall i, j :: 0 <= i < j < |s| ==> s[i] != s[j]
    ensures |s| <= n
  {
    if s != [] {
      var top := n - 1;
      if top in s {
        var k :| 0 <= k < |s| && s[k] == top;
        var rest := s[..k] + s[k + 1..];
        forall i, j | 0 <= i < j < |rest| ensures rest[i] != rest[j] {
          var x, y := if i < k then i else i + 1, if j < k then j else j + 1;
          assert rest[i] == s[x] && rest[j] == s[y];
        }
        forall i | 0 <= i < |rest| ensures rest[i] < top {
          var x := if i < k then i else i + 1;
          assert rest[i] == s[x];
        }
        DistinctFits(rest, top);
      } else {
        forall i | 0 <= i < |s| ensures s[i] < top {
          assert s[i] in s;
        }
        DistinctFits(s, top);
      }
    }
  }

  /** While some node is undiscovered, neither stack is full. */
  lemma StacksHaveRoom(g: Graph, st: State, v: nat)
    requires Shape(g, st) && StackOrdered(g, st) && WorkOrdered(g, st)
    requires v < |g| && v !in st.onStack
    ensures |st.stack| < |g| && |st.work| < |g|
  {
    var stack := st.stack + [v];
    forall i, j | 0 <= i < j < |stack| ensures stack[i] != stack[j] {
      assert stack[i] == st.stack[i] && st.stack[i] in st.onStack;
    }
    DistinctFits(stack, |g|);
    var nodes := seq(|st.work|, i requires 0 <= i < |st.work| => st.work[i].0) + [v];
    forall i, j | 0 <= i < j < |nodes| ensures nodes[i] != nodes[j] {
      assert nodes[i] == st.work[i].0 && st.work[i].0 in st.onStack;
    }
    DistinctFits(nodes, |g|);
  }

  ghost function TotalSize(cycles: seq<seq<nat>>): (r: nat) {
    if cycles == [] then 0 else TotalSize(cycles[..|cycles| - 1]) + |cycles[|cycles| - 1]|
  }

  /** The top of st.work is on the work stack but not yet discovered: core is the state without it. */
  ghost predicate Pending(core: State, st: State) {
    && |st.work| > 0 && |core.index| == |core.low|
    && var v := st.work[|st.work| - 1].0;
       v < |core.index| && core.index[v] == 0 && v !in core.onStack && st == Visit(core, v)
  }

  lemma ExploreStep(g: Graph, st: State)
    requires Inv(g, st) && |st.work| > 0
    ensures Explore(g, Step(g, st)) == Explore(g, st)
  {
    hide Inv;
    StepProgress(g, st);
  }

  lemma StepFound(g: Graph, st: State)
    requires Inv(g, st) && |st.work| > 0
    requires var top := st.work[|st.work| - 1];
      top.0 < |g| && top.1 < |g[top.0]| && g[top.0][top.1] < |g| == |st.index|
    requires var top := st.work[|st.work| - 1]; st.index[g[top.0][top.1]] == 0
    ensures var top := st.work[|st.work| - 1]; var w := g[top.0][top.1];
      && Step(g, st).work == Advance(st).work + [(w, 0)] && Step(g, st).comps == st.comps
      && Pending(Advance(st), Step(g, st))
      && |st.work| < |g|
      && Unseen(Step(g, st)) < Unseen(st)
      && Explore(g, Step(g, st)) == Explore(g, st)
  {
    hide Explore;
    ExploreStep(g, st);
    var top := st.work[|st.work| - 1];
    var w := g[top.0][top.1];
    StacksHaveRoom(g, st, w);
    assert w in Unseen(st) && w !in Unseen(Step(g, st));
    assert Unseen(Step(g, st)) <= Unseen(st);
  }

  lemma StepSeen(g: Graph, st: State)
    requires Inv(g, st) && |st.work| > 0
    requires var top := st.work[|st.work| - 1];
      top.0 < |g| && top.1 < |g[top.0]| && g[top.0][top.1] < |g| == |st.index| == |st.low|
    requires var top := st.work[|st.work| - 1]; st.index[g[top.0][top.1]] != 0
    ensures var top := st.work[|st.work| - 1]; var w := g[top.0][top.1];
      && Step(g, st) == Advance(st).(low := if w in st.onStack then st.low[top.0 := Min(st.low[top.0], st.index[w])]
        else st.low)
      && Explore(g, Step(g, st)) == Explore(g, st)
  {
    hide Explore;
    ExploreStep(g, st);
  }

  lemma NothingMore(g: Graph, st: State)
    requires Inv(g, st) && |st.work| > 0
    requires var top := st.work[|st.work| - 1];
      top.0 < |g| && top.1 == |g[top.0]| ensures ReadyToLeave(g, st)
  {
  }

  lemma TopInRange(g: Graph, st: State)
    requires Inv(g, st) && |st.work| > 0
    ensures var top := st.work[|st.work| - 1]; top.0 < |g| && top.1 <= |g[top.0]|
  {
  }

  lemma PositionIs(s: seq<nat>, v: nat)
    requires v in s
    ensures s[Position(s, v)] == v && Position(s, v) < |s|
  {
  }

  lemma SameUnseen(a: State, b: State)
    ensures a.index == b.index ==> Unseen(a) == Unseen(b)
  {
  }

  lemma EmitKeeps(st: State, u: nat, v: nat)
    requires u in st.stack
    ensures v in Emit(st, u).onStack <==> v in st.onStack && v !in st.stack[Position(st.stack, u)..]
  {
    var start := Position(st.stack, u);
    var gone := set k | start <= k < |st.stack| :: st.stack[k];
    if v in gone {
      var k :| start <= k < |st.stack| && st.stack[k] == v;
      assert st.stack[start..][k - start] == v;
    }
    if v in st.stack[start..] {
      var k :| 0 <= k < |st.stack[start..]| && st.stack[start..][k] == v;
      assert st.stack[start + k] in gone;
    }
  }

  lemma RootPending(g: Graph, start: State, root: nat)
    requires Inv(g, start) && start.work == [] && root < |g| && root < |start.index| && start.index[root] == 0
    ensures StartAt(g, start, root) == Visit(start, root) && Pending(start, Visit(start, root))
    ensures Visit(start, root).work == [(root, 0)] && Visit(start, root).comps == start.comps
    ensures |start.index| == |g|
  {
  }

  /** A node about to be discovered still finds room on the component stack. */
  lemma StackFits(g: Graph, core: State, st: State)
    requires Inv(g, st) && Pending(core, st)
    ensures |core.stack| < |g|
  {
    forall i, j | 0 <= i < j < |st.stack| ensures st.stack[i] != st.stack[j] {
      assert st.index[st.stack[i]] < st.index[st.stack[j]];
    }
    forall i | 0 <= i < |st.stack| ensures st.stack[i] < |g| {
      assert st.stack[i] in st.onStack;
    }
    DistinctFits(st.stack, |g|);
  }

  lemma FinishStep(g: Graph, st: State)
    requires Inv(g, st) && ReadyToLeave(g, st)
    ensures Shape(g, st) && |st.work| > 0 && Inv(g, Retreat(g, st)) && Explore(g, Retreat(g, st)) == Explore(g, st)
    ensures Unseen(Retreat(g, st)) == Unseen(st) && |Retreat(g, st).work| < |st.work|
  {
    hide Explore, Unseen;
    RetreatInv(g, st);
    ExploreStep(g, st);
    RetreatProgress(g, st);
    SameUnseen(st, Retreat(g, st));
    assert Step(g, st) == Retreat(g, st);
  }

  lemma ExploreDone(g: Graph, st: State)
    requires Inv(g, st) && st.work == []
    ensures Explore(g, st) == st
  {
  }

  lemma SearchStep(g: Graph, root: nat)
    requires WellFormed(g) && root < |g|
    ensures Search(g, root + 1) == Explore(g, StartAt(g, Search(g, root), root))
    ensures Search(g, root).index[root] != 0 ==> Search(g, root + 1) == Search(g, root)
  {
  }

  class ArraySearch {
    const n: nat
    ghost const g: Graph
    const offsets: array<nat>
    const successors: array<nat>
    const index: array<nat>
    const low: array<nat>
    const onStack: array<bool>
    const stack: array<nat>
    const work: array<nat>
    const workPos: array<nat>
    const cyclic: array<bool>
    var counter: nat
    var stackLen: nat
    var workLen: nat
    var cycles: seq<seq<nat>>
    var cyclicCount: nat

    ghost predicate Layout() {
      && |g| == n && WellFormed(g)
      && offsets.Length == n + 1
      && index.Length == n && low.Length == n && onStack.Length == n && stack.Length == n
      && work.Length == n && workPos.Length == n && cyclic.Length == n
      && index != low && index != stack && index != work && index != workPos
      && low != stack && low != work && low != workPos
      && stack != work && stack != workPos && work != workPos
      && offsets != index && offsets != low && offsets != stack && offsets != work && offsets != workPos
      && successors != index && successors != low && successors != stack && successors != work && successors != workPos
      && onStack != cyclic
    }

    ghost predicate Adjacent()
      requires Layout()
      reads offsets, successors
    {
      && (forall u {:trigger offsets[u]} :: 0 <= u < n ==>
        offsets[u] + |g[u]| == offsets[u + 1] && offsets[u + 1] <= successors.Length)
      && (forall u, k :: 0 <= u < n && 0 <= k < |g[u]| ==>
        offsets[u] + k < successors.Length && successors[offsets[u] + k] == g[u][k])
    }

    /** The marks and the component stack are those of s. */
    ghost predicate HoldsMarks(s: State)
      requires Layout()
      reads `counter, `stackLen, index, low, onStack, stack
    {
      && counter == s.counter && stackLen == |s.stack| <= n
      && |s.index| == n && |s.low| == n
      && (forall v :: 0 <= v < n ==> index[v] == s.index[v])
      && (forall v :: 0 <= v < n ==> low[v] == s.low[v])
      && (forall v :: 0 <= v < n ==> (onStack[v] <==> v in s.onStack))
      && (forall i :: 0 <= i < stackLen ==> stack[i] == s.stack[i])
    }

    /** The report so far. */
    ghost predicate HoldsReport(comps: seq<seq<nat>>)
      requires Layout()
      reads `cycles, `cyclicCount, cyclic
    {
      && cycles == Circulars(g, comps)
      && (forall v :: 0 <= v < n ==> (cyclic[v] <==> InComps(cycles, v)))
      && cyclicCount == TotalSize(cycles)
    }

    constructor (n: nat, ghost g: Graph, offsets: array<nat>, successors: array<nat>)
      requires |g| == n && WellFormed(g) && offsets.Length == n + 1
      ensures this.n == n && this.g == g && this.offsets == offsets && this.successors == successors
      ensures Layout() && HoldsMarks(Init(n)) && HoldsReport([])
      ensures fresh(index) && fresh(low) && fresh(onStack) && fresh(stack) && fresh(work) && fresh(workPos)
      ensures fresh(cyclic)
    {
      this.n, this.g, this.offsets, this.successors := n, g, offsets, successors;
      index := new nat[n](_ => 0);
      low := new nat[n](_ => 0);
      onStack := new bool[n](_ => false);
      stack := new nat[n];
      work := new nat[n];
      workPos := new nat[n];
      cyclic := new bool[n](_ => false);
      counter, stackLen, workLen := 0, 0, 0;
      cycles, cyclicCount := [], 0;
    }

    ghost predicate HoldsWork(items: seq<(nat, nat)>)
      requires Layout()
      reads `workLen, work, workPos, offsets
    {
      && workLen == |items| <= n
      && (forall i :: 0 <= i < workLen ==>
        items[i].0 < n && work[i] == items[i].0 && workPos[i] == offsets[items[i].0] + items[i].1)
    }

    /** Number the undiscovered node on top of the work stack and put it on the component stack. */
    method Discover(ghost before: State, node: nat)
      requires Layout() && HoldsMarks(before) && node < n && |before.stack| < n
      modifies this`counter, this`stackLen, index, low, onStack, stack
      ensures HoldsMarks(Visit(before, node))
    {
      counter := counter + 1;
      index[node] := counter;
      low[node] := counter;
      stack[stackLen] := node;
      stackLen := stackLen + 1;
      onStack[node] := true;
    }

    method Push(next: nat, ghost items: seq<(nat, nat)>)
      requires Layout() && HoldsWork(items) && next < n && workLen < n
      modifies this`workLen, work, workPos
      ensures HoldsWork(items + [(next, 0)])
    {
      work[workLen] := next;
      workPos[workLen] := offsets[next];
      workLen := workLen + 1;
    }

    /** Record that the top of the work stack has examined one more successor. */
    method MoveOn(position: nat, ghost st: State)
      requires Layout() && HoldsWork(st.work) && |st.work| > 0
      requires var top := st.work[|st.work| - 1]; position == offsets[top.0] + top.1 + 1
      modifies workPos
      ensures HoldsWork(Advance(st).work)
    {
      workPos[workLen - 1] := position;
    }

    method Lower(node: nat, next: nat, ghost st: State)
      requires Layout() && HoldsMarks(st) && node < n && next < n
      modifies low
      ensures HoldsMarks(st.(low := if next in st.onStack then st.low[node := Min(st.low[node], st.index[next])]
          else st.low))
    {
      if onStack[next] {
        low[node] := Min(low[node], index[next]);
      }
    }

    lemma SameMarks(s: State, t: State)
      requires Layout() && HoldsMarks(s) && s == t.(work := s.work)
      ensures HoldsMarks(t)
    {
    }

    lemma BlockEnd(u: nat)
      requires Layout() && Adjacent() && u < n
      ensures offsets[u + 1] == offsets[u] + |g[u]|
    {
    }

    lemma MarkOf(v: nat, st: State)
      requires Layout() && HoldsMarks(st) && v < n
      ensures |st.index| == n && |st.low| == n && index[v] == st.index[v]
    {
    }

    method SuccessorAt(position: nat, ghost u: nat, ghost k: nat) returns (next: nat)
      requires Layout() && Adjacent() && u < n && k < |g[u]| && position == offsets[u] + k
      ensures next < n && next == g[u][k]
    {
      next := successors[position];
      assert g[u][k] < |g|;
    }

    method NextPosition(ghost st: State) returns (position: nat)
      requires Layout() && HoldsWork(st.work) && |st.work| > 0
      ensures var top := st.work[|st.work| - 1]; top.0 < n && position == offsets[top.0] + top.1
    {
      position := workPos[workLen - 1];
    }

    /** Look at successors until one is undiscovered or none is left. */
    method Scan(node: nat, ghost start: State) returns (recursed: bool, ghost core: State, ghost st: State)
      requires Layout() && Adjacent() && Inv(g, start) && |start.work| > 0
      requires HoldsMarks(start) && HoldsWork(start.work) && node == start.work[|start.work| - 1].0
      modifies this`workLen, low, work, workPos
      ensures Adjacent() && Inv(g, st) && Explore(g, st) == Explore(g, start) && HoldsWork(st.work)
      ensures st.comps == start.comps
      ensures !recursed ==> HoldsMarks(st) && ReadyToLeave(g, st) && st.work[|st.work| - 1].0 == node
      ensures !recursed ==> |st.work| == |start.work| && Unseen(st) == Unseen(start)
      ensures recursed ==> HoldsMarks(core) && Pending(core, st) && Unseen(st) < Unseen(start)
    {
      hide Inv, Explore, Unseen, Adjacent, HoldsMarks, HoldsWork, Step, Visit, Shape, WellFormed, SomethingLeft;
      hide ReadyToLeave, Pending, Min;
      var position := NextPosition(start);
      st := start;
      core := start;
      recursed := false;
      TopInRange(g, st);
      BlockEnd(node);
      while position < offsets[node + 1]
        invariant Adjacent() && Inv(g, st) && Explore(g, st) == Explore(g, start)
        invariant HoldsMarks(st) && HoldsWork(st.work) && st.comps == start.comps && st.index == start.index
        invariant |st.work| == |start.work| && st.work[|st.work| - 1].0 == node
        invariant position == offsets[node] + st.work[|st.work| - 1].1 && offsets[node + 1] == offsets[node] + |g[node]|
        invariant st.work[|st.work| - 1].1 <= |g[node]|
        invariant !recursed
      {
        var next := SuccessorAt(position, node, st.work[|st.work| - 1].1);
        position := position + 1;
        MoveOn(position, st);
        MarkOf(next, st);
        core := Advance(st);
        SameMarks(st, core);
        if index[next] == 0 {
          SameUnseen(start, st);
          StepFound(g, st);
          Push(next, core.work);
          st := Step(g, st);
          recursed := true;
          break;
        }
        Lower(node, next, core);
        StepSeen(g, st);
        st := Step(g, st);
      }
      if !recursed {
        SameUnseen(start, st);
        NothingMore(g, st);
      }
    }

    /** The place of node on the component stack, searched for from the top. */
    method FindStart(ghost st: State, node: nat) returns (start: nat)
      requires Layout() && HoldsMarks(st) && node in st.stack
      ensures start == Position(st.stack, node)
    {
      start := stackLen - 1;
      PositionIs(st.stack, node);
      while stack[start] != node
        invariant Position(st.stack, node) <= start < stackLen
        decreases start
      {
        start := start - 1;
      }
    }

    method FeedsItself(node: nat) returns (loops: bool)
      requires Layout() && Adjacent() && node < n
      ensures loops <==> node in g[node]
    {
      loops := false;
      var i := offsets[node];
      while i < offsets[node + 1]
        invariant offsets[node] <= i <= offsets[node + 1]
        invariant loops <==> node in g[node][..i - offsets[node]]
      {
        assert successors[i] == g[node][i - offsets[node]];
        assert g[node][..i + 1 - offsets[node]] == g[node][..i - offsets[node]] + [g[node][i - offsets[node]]];
        if successors[i] == node { loops := true; }
        i := i + 1;
      }
      assert g[node][..|g[node]|] == g[node];
    }

    /** Flag and list the top of the component stack, from the top down. */
    method Flag(ghost st: State, start: nat) returns (members: seq<nat>)
      requires Layout() && HoldsMarks(st) && start < |st.stack|
      requires forall i :: 0 <= i < |st.stack| ==> st.stack[i] < n
      modifies cyclic
      ensures members == Reverse(st.stack[start..])
      ensures forall v :: 0 <= v < n ==> (cyclic[v] <==> old(cyclic[v]) || v in members)
    {
      ghost var comp := Reverse(st.stack[start..]);
      members := [];
      var i := stackLen;
      while start < i
        invariant start <= i <= stackLen
        invariant members == comp[..stackLen - i]
        invariant forall v :: 0 <= v < n ==> (cyclic[v] <==> old(cyclic[v]) || v in members)
      {
        i := i - 1;
        var member := stack[i];
        assert comp[stackLen - i - 1] == member;
        cyclic[member] := true;
        members := members + [member];
      }
      assert members == comp;
    }

    lemma ReportGrows(before: seq<seq<nat>>, comps: seq<seq<nat>>, comp: seq<nat>)
      requires before == Circulars(g, comps)
      ensures Circulars(g, comps + [comp]) == if Circular(g, comp) then before + [comp] else before
      ensures TotalSize(before + [comp]) == TotalSize(before) + |comp|
      ensures forall v: nat :: InComps(before + [comp], v) <==> InComps(before, v) || v in comp
    {
      hide Circular;
      assert (comps + [comp])[..|comps|] == comps;
      assert (before + [comp])[..|before|] == before;
      forall v: nat ensures InComps(before + [comp], v) <==> InComps(before, v) || v in comp {
        InCompsGrows(before, comp, v);
      }
    }

    /** Report the top of the component stack, from the top down, if a value can loop around it. */
    method Report(ghost st: State, start: nat, node: nat)
      requires Layout() && Adjacent() && HoldsMarks(st) && HoldsReport(st.comps)
      requires start < |st.stack| && st.stack[start] == node
      requires forall i :: 0 <= i < |st.stack| ==> st.stack[i] < n
      modifies this`cycles, this`cyclicCount, cyclic
      ensures HoldsReport(st.comps + [Reverse(st.stack[start..])])
    {
      hide Circulars, TotalSize, InComps, Adjacent, WellFormed;
      ghost var comp := Reverse(st.stack[start..]);
      var size := stackLen - start;
      var loops := false;
      if size == 1 {
        loops := FeedsItself(node);
      }
      assert comp[|comp| - 1] == node;
      assert Circular(g, comp) <==> size > 1 || loops;
      ReportGrows(cycles, st.comps, comp);
      if size > 1 || loops {
        cyclicCount := cyclicCount + size;
        var members := Flag(st, start);
        cycles := cycles + [members];
      }
    }

    method Unmark(ghost st: State, start: nat)
      requires Layout() && HoldsMarks(st) && Shape(g, st) && start <= |st.stack|
      modifies onStack
      ensures forall v :: 0 <= v < n ==> (onStack[v] <==> v in st.onStack && v !in st.stack[start..])
    {
      var i := start;
      while i < stackLen
        invariant start <= i <= stackLen == |st.stack|
        invariant forall v :: 0 <= v < n ==> (onStack[v] <==> v in st.onStack && v !in st.stack[start..i])
      {
        assert st.stack[i] in st.onStack;
        assert st.stack[start..i + 1] == st.stack[start..i] + [st.stack[i]];
        onStack[stack[i]] := false;
        i := i + 1;
      }
      assert st.stack[start..i] == st.stack[start..];
    }

    /** Take the members of a closed component off the stack. */
    method Unstack(ghost st: State, start: nat, node: nat)
      requires Layout() && HoldsMarks(st) && Shape(g, st) && node in st.stack && start == Position(st.stack, node)
      modifies this`stackLen, onStack
      ensures HoldsMarks(Emit(st, node))
    {
      PositionIs(st.stack, node);
      hide Position;
      Unmark(st, start);
      stackLen := start;
      forall v: nat ensures v in Emit(st, node).onStack <==> v in st.onStack && v !in st.stack[start..] {
        EmitKeeps(st, node, v);
      }
    }

    /** Take the component that node closes off the stack, reporting it if it is circular. */
    method Close(node: nat, ghost st: State)
      requires Layout() && Adjacent() && Shape(g, st) && HoldsMarks(st) && HoldsReport(st.comps) && node in st.stack
      modifies this`stackLen, this`cycles, this`cyclicCount, onStack, cyclic
      ensures HoldsMarks(Emit(st, node)) && HoldsReport(Emit(st, node).comps)
    {
      var start := FindStart(st, node);
      PositionIs(st.stack, node);
      forall i | 0 <= i < |st.stack| ensures st.stack[i] < n {
        assert st.stack[i] in st.onStack;
      }
      Report(st, start, node);
      Unstack(st, start, node);
    }

    method Pop(node: nat, ghost st: State)
      requires Layout() && HoldsMarks(st) && HoldsWork(st.work) && |st.work| > 0
      requires st.work[|st.work| - 1].0 == node && forall i :: 0 <= i < |st.work| ==> st.work[i].0 < n
      modifies this`workLen, low
      ensures HoldsMarks(PopWork(st)) && HoldsWork(PopWork(st).work) && PopWork(st).comps == st.comps
    {
      workLen := workLen - 1;
      if workLen > 0 {
        var parent := work[workLen - 1];
        low[parent] := Min(low[parent], low[node]);
      }
      assert PopWork(st).work == st.work[..|st.work| - 1];
    }

    /** Leave a node whose successors are all examined. */
    method Finish(node: nat, ghost st: State)
      requires Layout() && Adjacent() && Shape(g, st) && HoldsMarks(st) && HoldsWork(st.work) && HoldsReport(st.comps)
      requires ReadyToLeave(g, st) && st.work[|st.work| - 1].0 == node
      modifies this`workLen, this`stackLen, this`cycles, this`cyclicCount, low, onStack, cyclic
      ensures HoldsMarks(Retreat(g, st)) && HoldsWork(Retreat(g, st).work) && HoldsReport(Retreat(g, st).comps)
    {
      hide HoldsReport;
      assert st.work[|st.work| - 1].0 in st.onStack;
      ghost var next := st;
      if low[node] == index[node] {
        Close(node, st);
        next := Emit(st, node);
      }
      Pop(node, next);
      assert Retreat(g, st) == PopWork(next);
      assert HoldsReport(PopWork(next).comps);
    }

    lemma TopIsMarked(st: State)
      requires Layout() && HoldsMarks(st) && HoldsWork(st.work) && Inv(g, st) && |st.work| > 0
      ensures 0 < workLen <= n && work[workLen - 1] == st.work[|st.work| - 1].0 < n && index[work[workLen - 1]] != 0
    {
      assert st.work[|st.work| - 1].0 in st.onStack;
    }

    lemma TopIsPending(core: State, st: State)
      requires Layout() && HoldsMarks(core) && HoldsWork(st.work) && Pending(core, st)
      ensures 0 < workLen <= n && work[workLen - 1] == st.work[|st.work| - 1].0 < n && index[work[workLen - 1]] == 0
      ensures st == Visit(core, work[workLen - 1])
    {
    }

    /** Number the node on top of the work stack if it is new. */
    method Enter(ghost core: State, ghost st: State, ghost pending: bool) returns (node: nat)
      requires Layout() && Inv(g, st) && HoldsWork(st.work) && workLen > 0 && |st.work| > 0
      requires if pending then HoldsMarks(core) && Pending(core, st) else HoldsMarks(st)
      modifies this`counter, this`stackLen, index, low, onStack, stack
      ensures HoldsMarks(st) && node == st.work[|st.work| - 1].0
    {
      hide Inv, HoldsMarks, HoldsWork, Visit, Shape, WellFormed, Pending;
      if pending { TopIsPending(core, st); } else { TopIsMarked(st); }
      node := work[workLen - 1];
      if index[node] == 0 {
        StackFits(g, core, st);
        Discover(core, node);
      }
    }

    lemma WorkSize(items: seq<(nat, nat)>)
      requires Layout() && HoldsWork(items)
      ensures workLen == |items|
    {
    }

    /** One turn of the search: discover the top node if it is new, look for a new successor, and
        leave the node if there is none. */
    method Turn(ghost core: State, ghost st: State, ghost pending: bool)
      returns (ghost nextCore: State, ghost next: State, ghost nextPending: bool)
      requires Layout() && Adjacent() && Inv(g, st) && HoldsWork(st.work) && HoldsReport(st.comps) && workLen > 0
      requires if pending then HoldsMarks(core) && Pending(core, st) else HoldsMarks(st)
      modifies this`counter, this`stackLen, this`workLen, this`cycles, this`cyclicCount
      modifies index, low, onStack, stack, work, workPos, cyclic
      ensures Adjacent() && Inv(g, next) && HoldsWork(next.work) && workLen == |next.work| && HoldsReport(next.comps)
      ensures if nextPending then HoldsMarks(nextCore) && Pending(nextCore, next) else HoldsMarks(next)
      ensures Explore(g, next) == Explore(g, st)
      ensures Unseen(next) < Unseen(st) || (Unseen(next) == Unseen(st) && |next.work| < |st.work|)
    {
      hide Inv, Explore, Unseen, Adjacent, HoldsMarks, HoldsWork, HoldsReport, Step, Visit, Retreat, Shape, WellFormed;
      hide ReadyToLeave, Pending;
      nextCore := core;
      WorkSize(st.work);
      var node := Enter(core, st, pending);
      var recursed;
      ghost var scanned;
      recursed, nextCore, scanned := Scan(node, st);
      nextPending := recursed;
      next := scanned;
      WorkSize(scanned.work);
      if !recursed {
        FinishStep(g, scanned);
        Finish(node, scanned);
        next := Retreat(g, scanned);
        WorkSize(next.work);
      }
    }

    lemma EmptyWork()
      requires Layout() && workLen == 0
      ensures HoldsWork([])
    {
    }

    /** Everything reachable from an undiscovered root. */
    method ExploreRoot(root: nat, ghost start: State) returns (ghost st: State)
      requires Layout() && Adjacent() && Inv(g, start) && start.work == [] && root < n
      requires HoldsMarks(start) && HoldsReport(start.comps) && index[root] == 0
      modifies this`counter, this`stackLen, this`workLen, this`cycles, this`cyclicCount
      modifies index, low, onStack, stack, work, workPos, cyclic
      ensures Adjacent() && root < |start.index| == |g| && st == Explore(g, StartAt(g, start, root))
      ensures HoldsMarks(st) && HoldsReport(st.comps)
    {
      hide Inv, Explore, Unseen, Adjacent, HoldsMarks, HoldsWork, HoldsReport, Step, Visit, Retreat, Shape, WellFormed;
      hide ReadyToLeave, StartAt;
      workLen := 0;
      EmptyWork();
      MarkOf(root, start);
      Push(root, []);
      assert [] + [(root, 0)] == [(root, 0)];
      ghost var core := start;
      st := StartAt(g, start, root);
      RootPending(g, start, root);
      ghost var pending := true;
      while workLen > 0
        invariant Adjacent() && Inv(g, st) && Explore(g, st) == Explore(g, StartAt(g, start, root))
        invariant HoldsWork(st.work) && workLen == |st.work| && HoldsReport(st.comps)
        invariant if pending then HoldsMarks(core) && Pending(core, st) else HoldsMarks(st)
        decreases Unseen(st), |st.work|
      {
        core, st, pending := Turn(core, st, pending);
      }
      ExploreDone(g, st);
    }

    /** Try every node as a root, in order. */
    method Run(ghost start: State)
      requires Layout() && Adjacent() && start == Init(n)
      requires HoldsMarks(start) && HoldsReport([])
      modifies this`counter, this`stackLen, this`workLen, this`cycles, this`cyclicCount
      modifies index, low, onStack, stack, work, workPos, cyclic
      ensures cycles == Cycles(g) && cyclicCount == TotalSize(cycles)
      ensures forall v :: 0 <= v < n ==> (cyclic[v] <==> InComps(Cycles(g), v))
    {
      hide Inv, Explore, Adjacent, HoldsMarks, HoldsWork;
      ghost var st := start;
      for root := 0 to n
        invariant Adjacent() && st == Search(g, root) && HoldsMarks(st) && HoldsReport(st.comps)
      {
        MarkOf(root, st);
        if index[root] == 0 {
          SearchStep(g, root);
          st := ExploreRoot(root, st);
        } else {
          SearchStep(g, root);
        }
      }
    }
  }
}
