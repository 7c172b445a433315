/** A formula's tree flattened into numbered node records and slot-indexed edge records, and the
    proof that the records still hold the tree. */
module FormulaEmission {
  import opened Options
  import opened FormulaTokens
  import opened FormulaRendering

  /** An edge starts at a node of the formula itself or at a node of the workbook. */
  datatype Source = Own(number: nat) | Outer(id: string)

  datatype NodeRecord =
    | ConstNode(number: nat, token: Token, expr: string)
    | OpNode(number: nat, kind: OpKind, tag: string, arity: nat, expr: string)

  /** The target is a node of the formula, or the formula's cell when it is None. */
  datatype EdgeRecord = EdgeRecord(source: Source, target: Option<nat>, role: string, slot: nat, op: string,
                                   ref: string, via: string)

  datatype Origin = Origin(source: Source, ref: string, via: string)

  /** What a reference stands for: a workbook node, or a logical literal. */
  datatype Item = Whole(id: string, isRange: bool) | Logical(truth: bool)

  /** Reference resolution, operand roles and the text an INDIRECT call's cached ingredients
      assemble belong to other parts of the program. */
  datatype Settings = Settings(
    consts: bool,
    resolve: string -> seq<Item>,
    role: (OpKind, string, nat, nat) -> string,
    indirect: seq<Ast> -> Option<string>)

  datatype Log = Log(next: nat, nodes: seq<NodeRecord>, edges: seq<EdgeRecord>)

  // ---------- one edge, one list of edges ----------

  predicate SameKey(a: EdgeRecord, b: EdgeRecord) {
    a.source == b.source && a.target == b.target && a.role == b.role && a.slot == b.slot && a.ref == b.ref
  }

  function AddEdge(edges: seq<EdgeRecord>, e: EdgeRecord): (r: seq<EdgeRecord>) {
    if exists i :: 0 <= i < |edges| && SameKey(edges[i], e) then edges else edges + [e]
  }

  /** The edges of one slot: everything but the source is the same for all of them. */
  datatype Slot = Slot(target: Option<nat>, role: string, index: nat, op: string)

  function EdgeOf(slot: Slot, o: Origin): (r: EdgeRecord) {
    EdgeRecord(o.source, slot.target, slot.role, slot.index, slot.op, o.ref, o.via)
  }

  function Link(edges: seq<EdgeRecord>, slot: Slot, origins: seq<Origin>): (r: seq<EdgeRecord>)
    decreases |origins|
  {
    if origins == [] then edges else Link(AddEdge(edges, EdgeOf(slot, origins[0])), slot, origins[1..])
  }

  function Tag(kind: OpKind, name: string): (r: string) {
    match kind
    case Func => name
    case Prefix => "u" + name
    case Array => "{}"
    case Union => ","
    case Infix => if name == " " then "isect" else name
    case Postfix => name
  }

  function SlotAt(st: Settings, t: Ast, target: nat, i: nat): (r: Slot)
    requires t.Op?
  {
    Slot(Some(target), st.role(t.kind, t.name, i, |t.args|), i, Tag(t.kind, t.name))
  }

  /** Links the operands from slot i on. */
  function LinkAll(edges: seq<EdgeRecord>, st: Settings, t: Ast, target: nat, i: nat,
                   rest: seq<seq<Origin>>): (r: seq<EdgeRecord>)
    requires t.Op?
    decreases |rest|
  {
    if rest == [] then edges
    else LinkAll(Link(edges, SlotAt(st, t, target, i), rest[0]), st, t, target, i + 1, rest[1..])
  }

  // ---------- the walk ----------

  /** The part of a reference after its last exclamation mark. */
  function AfterSheet(s: string): (r: string) {
    if s == "" then ""
    else if s[|s| - 1] == '!' then ""
    else AfterSheet(s[..|s| - 1]) + [s[|s| - 1]]
  }

  function Via(token: string, items: seq<Item>): (r: string) {
    if |items| > 1 || (items != [] && (':' in AfterSheet(token) || (items[0].Whole? && items[0].isRange))) then token
      else ""
  }

  function LogicalToken(truth: bool): (r: Token) {
    ConstTok(LogicalLiteral, if truth then "TRUE" else "FALSE", None)
  }

  function AddConst(log: Log, token: Token): (r: Log) {
    Log(log.next + 1, log.nodes + [ConstNode(log.next, token, Shown(Const(token)))], log.edges)
  }

  function EmitItem(st: Settings, token: string, via: string, item: Item, log: Log): (r: (Log, seq<Origin>)) {
    match item
    case Whole(id, _) => (log, [Origin(Outer(id), token, via)])
    case Logical(truth) =>
      if st.consts then (AddConst(log, LogicalToken(truth)), [Origin(Own(log.next), token, "")]) else (log, [])
  }

  function EmitItems(st: Settings, token: string, via: string, items: seq<Item>, log: Log): (r: (Log, seq<Origin>))
    decreases |items|
  {
    if items == [] then (log, [])
    else
      var (one, first) := EmitItem(st, token, via, items[0], log);
      var (after, rest) := EmitItems(st, token, via, items[1..], one);
      (after, first + rest)
  }

  function EmitRef(st: Settings, token: string, log: Log): (r: (Log, seq<Origin>)) {
    EmitItems(st, token, Via(token, st.resolve(token)), st.resolve(token), log)
  }

  function Retarget(origins: seq<Origin>, token: string): (r: seq<Origin>)
    ensures |r| == |origins|
  {
    if origins == [] then []
    else [origins[0].(via := if origins[0].via == "" then token else origins[0].via)] + Retarget(origins[1..], token)
  }

  /** The extra edges from what an INDIRECT call points at, in the slot after its last argument. */
  function Indirect(st: Settings, t: Ast, target: nat, log: Log): (r: Log)
    requires t.Op?
  {
    if t.kind == Func && t.name == "INDIRECT" && t.args != [] && st.indirect(t.args).Some? then
      var token := st.indirect(t.args).value;
      var (after, origins) := EmitRef(st, token, log);
      after.(edges := Link(after.edges, Slot(Some(target), "resolved", |t.args|, Tag(t.kind, t.name)),
        Retarget(origins, token)))
    else log
  }

  function EmitAll(st: Settings, ts: seq<Ast>, log: Log): (r: (Log, seq<seq<Origin>>))
    ensures |r.1| == |ts|
    decreases ts, 1
  {
    if ts == [] then (log, [])
    else
      var (one, first) := Emit(st, ts[0], log);
      var (all, rest) := EmitAll(st, ts[1..], one);
      (all, [first] + rest)
  }

  /** Children first; then the operator's own node, its operand edges, and what INDIRECT adds. */
  function Emit(st: Settings, t: Ast, log: Log): (r: (Log, seq<Origin>))
    decreases t, 0
  {
    match t
    case Ref(name) => EmitRef(st, name, log)
    case Const(token) => if st.consts then (AddConst(log, token), [Origin(Own(log.next), "", "")]) else (log, [])
    case Missing => (log, [])
    case Op(kind, name, args, _) =>
      var (below, origins) := EmitAll(st, args, log);
      var k := below.next;
      var node := Log(k + 1, below.nodes + [OpNode(k, kind, Tag(kind, name), |args|, Shown(t))],
        LinkAll(below.edges, st, t, k, 0, origins));
      (Indirect(st, t, k, node), [Origin(Own(k), "", "")])
  }

  function RootSlot(t: Ast): (r: Slot) {
    Slot(None, if t.Op? then "result" else if t.Const? then "constant"
      else "identity", 0, if t.Op? then Tag(t.kind, t.name) else "")
  }

  /** All records of a formula. */
  function Records(st: Settings, t: Ast): (r: Log) {
    var (log, origins) := Emit(st, t, Log(0, [], []));
    log.(edges := Link(log.edges, RootSlot(t), origins))
  }

  // ---------- the walk as the program runs it ----------

  lemma {:induction false} RetargetAt(origins: seq<Origin>, token: string, i: nat)
    requires i < |origins|
    ensures Retarget(origins, token)[i] == origins[i].(via := if origins[i].via == "" then token else origins[i].via)
  {
    if i > 0 { RetargetAt(origins[1..], token, i - 1); }
  }

  class Emitter {
    var next: nat
    var nodes: seq<NodeRecord>
    var edges: seq<EdgeRecord>

    function Now(): (r: Log)
      reads this
    {
      Log(next, nodes, edges)
    }

    constructor ()
      ensures Now() == Log(0, [], [])
    {
      next, nodes, edges := 0, [], [];
    }

    method Put(e: EdgeRecord)
      modifies this`edges
      ensures edges == AddEdge(old(edges), e)
    {
      var i := 0;
      while i < |edges| && !SameKey(edges[i], e)
        invariant 0 <= i <= |edges|
        invariant forall j :: 0 <= j < i ==> !SameKey(edges[j], e)
      {
        i := i + 1;
      }
      if i == |edges| { edges := edges + [e]; }
    }

    method LinkSlot(slot: Slot, origins: seq<Origin>)
      modifies this`edges
      ensures edges == Link(old(edges), slot, origins)
    {
      hide AddEdge;
      var i := 0;
      while i < |origins|
        invariant 0 <= i <= |origins|
        invariant Link(edges, slot, origins[i..]) == Link(old(edges), slot, origins)
      {
        assert origins[i..][1..] == origins[i + 1..];
        Put(EdgeOf(slot, origins[i]));
        i := i + 1;
      }
    }

    method Constant(token: Token) returns (origins: seq<Origin>)
      modifies this
      ensures Now() == AddConst(old(Now()), token) && origins == [Origin(Own(old(next)), "", "")]
    {
      nodes := nodes + [ConstNode(next, token, Shown(Const(token)))];
      origins := [Origin(Own(next), "", "")];
      next := next + 1;
    }

    lemma ItemsHead(st: Settings, token: string, via: string, items: seq<Item>, i: nat, log: Log)
      requires i < |items|
      ensures var one := EmitItem(st, token, via, items[i], log);
        var rest := EmitItems(st, token, via, items[i + 1..], one.0);
        EmitItems(st, token, via, items[i..], log) == (rest.0, one.1 + rest.1)
    {
      hide EmitItem;
      assert items[i..][1..] == items[i + 1..];
    }

    lemma ItemsNone(st: Settings, token: string, via: string, log: Log)
      ensures EmitItems(st, token, via, [], log) == (log, [])
    {
    }

    method WalkItem(st: Settings, token: string, via: string, item: Item) returns (origins: seq<Origin>)
      modifies this
      ensures (Now(), origins) == EmitItem(st, token, via, item, old(Now()))
    {
      match item
      case Whole(id, _) => origins := [Origin(Outer(id), token, via)];
      case Logical(truth) =>
        origins := [];
        if st.consts {
          var own := Constant(LogicalToken(truth));
          origins := [Origin(own[0].source, token, "")];
        }
    }

    method WalkRef(st: Settings, token: string) returns (origins: seq<Origin>)
      modifies this
      ensures (Now(), origins) == EmitRef(st, token, old(Now()))
    {
      hide EmitItem, Via, EmitItems;
      var items := st.resolve(token);
      var via := Via(token, items);
      origins := [];
      assert items[0..] == items;
      ghost var all := EmitItems(st, token, via, items, Now());
      assert [] + all.1 == all.1;
      var i := 0;
      while i < |items|
        invariant 0 <= i <= |items|
        invariant EmitItems(st, token, via, items[i..], Now()).0 == all.0
        invariant origins + EmitItems(st, token, via, items[i..], Now()).1 == all.1
      {
        ItemsHead(st, token, via, items, i, Now());
        ghost var done := origins;
        var one := WalkItem(st, token, via, items[i]);
        origins := origins + one;
        assert done + (one + EmitItems(st, token, via, items[i + 1..], Now()).1)
          == origins + EmitItems(st, token, via, items[i + 1..], Now()).1;
        i := i + 1;
      }
      assert items[|items|..] == [];
      ItemsNone(st, token, via, Now());
      assert origins + [] == origins;
    }

    lemma ArgsHead(st: Settings, args: seq<Ast>, i: nat, log: Log)
      requires i < |args|
      ensures var one := Emit(st, args[i], log);
        var rest := EmitAll(st, args[i + 1..], one.0);
        EmitAll(st, args[i..], log) == (rest.0, [one.1] + rest.1)
    {
      hide Emit;
      assert args[i..][1..] == args[i + 1..];
    }

    lemma ArgsNone(st: Settings, log: Log)
      ensures EmitAll(st, [], log) == (log, [])
    {
    }

    method LinkOperands(st: Settings, t: Ast, k: nat, below: seq<seq<Origin>>)
      requires t.Op?
      modifies this`edges
      ensures edges == LinkAll(old(edges), st, t, k, 0, below)
    {
      hide Link;
      var i := 0;
      while i < |below|
        invariant 0 <= i <= |below|
        invariant LinkAll(edges, st, t, k, i, below[i..]) == LinkAll(old(edges), st, t, k, 0, below)
      {
        assert below[i..][1..] == below[i + 1..];
        LinkSlot(SlotAt(st, t, k, i), below[i]);
        i := i + 1;
      }
    }

    method Rewire(origins: seq<Origin>, token: string) returns (wired: seq<Origin>)
      ensures wired == Retarget(origins, token)
    {
      wired := [];
      var i := 0;
      while i < |origins|
        invariant 0 <= i <= |origins|
        invariant wired == Retarget(origins, token)[..i]
      {
        hide Retarget;
        RetargetAt(origins, token, i);
        wired := wired + [origins[i].(via := if origins[i].via == "" then token else origins[i].via)];
        i := i + 1;
      }
    }

    method Resolve(st: Settings, t: Ast, k: nat)
      requires t.Op?
      modifies this
      ensures Now() == Indirect(st, t, k, old(Now()))
    {
      hide EmitRef, Link, Retarget;
      if t.kind == Func && t.name == "INDIRECT" && t.args != [] && st.indirect(t.args).Some? {
        var token := st.indirect(t.args).value;
        var origins := WalkRef(st, token);
        var wired := Rewire(origins, token);
        LinkSlot(Slot(Some(k), "resolved", |t.args|, Tag(t.kind, t.name)), wired);
      }
    }

    method Walk(st: Settings, t: Ast) returns (origins: seq<Origin>)
      modifies this
      ensures (Now(), origins) == Emit(st, t, old(Now()))
      decreases t
    {
      match t
      case Ref(name) => origins := WalkRef(st, name);
      case Const(token) =>
        if st.consts { origins := Constant(token); } else { origins := []; }
      case Missing => origins := [];
      case Op(kind, name, args, _) =>
        var below := WalkAll(st, args);
        hide EmitAll, LinkAll, Indirect;
        var k := next;
        next, nodes := next + 1, nodes + [OpNode(next, kind, Tag(kind, name), |args|, Shown(t))];
        LinkOperands(st, t, k, below);
        Resolve(st, t, k);
        origins := [Origin(Own(k), "", "")];
    }

    method WalkAll(st: Settings, args: seq<Ast>) returns (below: seq<seq<Origin>>)
      modifies this
      ensures (Now(), below) == EmitAll(st, args, old(Now()))
      decreases args
    {
      hide Emit, EmitAll;
      below := [];
      assert args[0..] == args;
      ghost var all := EmitAll(st, args, Now());
      assert [] + all.1 == all.1;
      var i := 0;
      while i < |args|
        invariant 0 <= i <= |args|
        invariant EmitAll(st, args[i..], Now()).0 == all.0
        invariant below + EmitAll(st, args[i..], Now()).1 == all.1
      {
        ArgsHead(st, args, i, Now());
        ghost var done := below;
        assert args[i] in args;
        var one := Walk(st, args[i]);
        below := below + [one];
        assert done + ([one] + EmitAll(st, args[i + 1..], Now()).1) == below + EmitAll(st, args[i + 1..], Now()).1;
        i := i + 1;
      }
      assert args[|args|..] == [];
      ArgsNone(st, Now());
      assert below + [] == below;
    }

    method Formula(st: Settings, t: Ast)
      requires Now() == Log(0, [], [])
      modifies this
      ensures Now() == Records(st, t)
    {
      var origins := Walk(st, t);
      LinkSlot(RootSlot(t), origins);
    }
  }

  // ---------- reading the records back ----------

  /** A formula as its records show it. */
  datatype Kept =
    | NoOperand
    | KeptRef(name: string)
    | KeptConst(token: Token)
    | KeptOp(kind: OpKind, name: string, args: seq<Kept>, expr: string, points: Option<string>)

  function First(edges: seq<EdgeRecord>, target: Option<nat>, slot: nat): (r: Option<EdgeRecord>) {
    if edges == [] then None
    else if edges[0].target == target && edges[0].slot == slot then Some(edges[0])
    else First(edges[1..], target, slot)
  }

  function NameOf(kind: OpKind, tag: string): (r: string) {
    match kind
    case Prefix => if tag == "" then "" else tag[1..]
    case Infix => if tag == "isect" then " " else tag
    case _ => tag
  }

  /** The text an INDIRECT call was resolved with, if an edge in the slot after its operands holds it. */
  function ReadPoints(log: Log, k: nat, arity: nat): (r: Option<string>) {
    match First(log.edges, Some(k), arity)
    case None => None
    case Some(e) => Some(e.ref)
  }

  function ReadNode(log: Log, k: nat): (r: Kept)
    decreases k, 2
  {
    if k >= |log.nodes| then NoOperand
    else
      match log.nodes[k]
      case ConstNode(_, token, _) => KeptConst(token)
      case OpNode(_, kind, tag, arity, expr) => 
        KeptOp(kind, NameOf(kind, tag), ReadSlots(log, k, arity), expr, ReadPoints(log, k, arity))
  }

  /** The operand in a slot: a reference if the edge carries its text, otherwise the node the edge
      comes from; nothing if no edge arrives there. Nodes numbered `bound` or more are not read. */
  function ReadSlot(log: Log, target: Option<nat>, slot: nat, bound: nat): (r: Kept)
    decreases bound, 0
  {
    match First(log.edges, target, slot)
    case None => NoOperand
    case Some(e) =>
      if e.ref != "" then KeptRef(e.ref)
      else if e.source.Own? && e.source.number < bound then ReadNode(log, e.source.number)
      else NoOperand
  }

  function ReadSlots(log: Log, k: nat, arity: nat): (r: seq<Kept>)
    ensures |r| == arity
    decreases k, 1, arity
  {
    if arity == 0 then [] else ReadSlots(log, k, arity - 1) + [ReadSlot(log, Some(k), arity - 1, k)]
  }

  function Rebuild(log: Log): (r: Kept) { ReadSlot(log, None, 0, log.next) }

  // ---------- what the records keep ----------

  /** What an INDIRECT call points at, if that leads anywhere. */
  function Points(st: Settings, t: Ast): (r: Option<string>)
    requires t.Op?
  {
    if t.kind == Func && t.name == "INDIRECT" && t.args != [] && st.indirect(t.args).Some?
      && EmitRef(st, st.indirect(t.args).value, Log(0, [], [])).1 != []
    then st.indirect(t.args) else None
  }

  /** The tree as far as it is recorded: operands that emit nothing are empty slots, every operator has
      the text it is shown with, and an INDIRECT call what it points at. */
  function Recorded(st: Settings, t: Ast): (r: Kept) {
    match t
    case Ref(name) => if EmitRef(st, name, Log(0, [], [])).1 == [] then NoOperand else KeptRef(name)
    case Const(token) => if st.consts then KeptConst(token) else NoOperand
    case Missing => NoOperand
    case Op(kind, name, args, _) => KeptOp(kind, name, RecordedAll(st, args), Shown(t), Points(st, t))
  }

  function RecordedAll(st: Settings, ts: seq<Ast>): (r: seq<Kept>)
    ensures |r| == |ts|
  {
    if ts == [] then [] else [Recorded(st, ts[0])] + RecordedAll(st, ts[1..])
  }

  /** Names as the parser produces them: references have text, and the names that `Tag` replaces
      stand for themselves. */
  predicate Named(t: Ast)
    decreases t
  {
    match t
    case Ref(name) => name != ""
    case Const(_) => true
    case Missing => true
    case Op(kind, name, args, _) =>
      && (kind == Array ==> name == "{}")
      && (kind == Union ==> name == ",")
      && (kind == Infix ==> name != "isect")
      && forall i :: 0 <= i < |args| ==> Named(args[i])
  }

  // ---------- well-formed logs ----------

  ghost predicate EdgeOrdered(nodes: seq<NodeRecord>, e: EdgeRecord) {
    && e.target.Some?
    && e.target.value < |nodes|
    && nodes[e.target.value].OpNode?
    && e.slot <= nodes[e.target.value].arity
    && (e.source.Own? ==> e.source.number < |nodes|)
    && (e.source.Own? ==> (e.source.number < e.target.value <==> e.slot < nodes[e.target.value].arity))
  }

  /** Numbers are positions, and the operand edges are exactly those that point from a lower number
      to a higher one: INDIRECT's extra edges stand after the last operand, and what they add is
      numbered after the call. */
  ghost predicate Ordered(log: Log) {
    && log.next == |log.nodes|
    && (forall k :: 0 <= k < log.next ==> log.nodes[k].number == k)
    && forall i :: 0 <= i < |log.edges| ==> EdgeOrdered(log.nodes, log.edges[i])
  }

  ghost predicate Newer(e: EdgeRecord, next: nat) { e.target.Some? && e.target.value >= next }

  /** A later log: more nodes, and more edges but only into the newer nodes. */
  ghost predicate Extends(log: Log, later: Log) {
    && log.next <= later.next
    && log.nodes <= later.nodes
    && log.edges <= later.edges
    && forall i :: |log.edges| <= i < |later.edges| ==> Newer(later.edges[i], log.next)
  }

  ghost predicate OriginsBetween(origins: seq<Origin>, low: nat, high: nat) {
    forall i :: 0 <= i < |origins| ==> origins[i].source.Own? ==> low <= origins[i].source.number < high
  }

  lemma SelfExtends(log: Log)
    ensures Extends(log, log)
  {
  }

  lemma ExtendsTransitive(a: Log, b: Log, c: Log)
    requires Extends(a, b) && Extends(b, c)
    ensures Extends(a, c)
  {
    forall i | |a.edges| <= i < |c.edges| ensures Newer(c.edges[i], a.next) {
      if i < |b.edges| { assert c.edges[i] == b.edges[i]; }
    }
  }

  ghost predicate OfSlot(e: EdgeRecord, slot: Slot, origins: seq<Origin>) {
    exists j :: 0 <= j < |origins| && e == EdgeOf(slot, origins[j])
  }

  /** What Link adds: edges of the one slot only. */
  lemma {:induction false} LinkAdds(edges: seq<EdgeRecord>, slot: Slot, origins: seq<Origin>)
    ensures edges <= Link(edges, slot, origins)
    ensures forall i :: |edges| <= i < |Link(edges, slot, origins)| ==>
        OfSlot(Link(edges, slot, origins)[i], slot, origins)
    decreases |origins|
  {
    if origins != [] {
      var one, all := AddEdge(edges, EdgeOf(slot, origins[0])), Link(edges, slot, origins);
      LinkAdds(one, slot, origins[1..]);
      forall i | |edges| <= i < |all| ensures OfSlot(all[i], slot, origins) {
        if i < |one| {
          assert all[i] == EdgeOf(slot, origins[0]);
        } else {
          assert OfSlot(all[i], slot, origins[1..]);
          var j :| 0 <= j < |origins[1..]| && all[i] == EdgeOf(slot, origins[1..][j]);
          assert origins[1..][j] == origins[j + 1];
        }
      }
    }
  }

  /** Linking a slot of node k keeps the order when the origins stand on the slot's side of k. */
  lemma LinkOrdered(log: Log, slot: Slot, origins: seq<Origin>, k: nat, n: nat)
    requires Ordered(log) && n <= k < log.next && slot.target == Some(k)
    requires log.nodes[k].OpNode? && slot.index <= log.nodes[k].arity
    requires OriginsBetween(origins, if slot.index < log.nodes[k].arity then 0
        else k + 1, if slot.index < log.nodes[k].arity then k else log.next)
    ensures var after := log.(edges := Link(log.edges, slot, origins));
      Ordered(after) && forall i :: |log.edges| <= i < |after.edges| ==> Newer(after.edges[i], n)
  {
    hide Link;
    LinkAdds(log.edges, slot, origins);
    var all := Link(log.edges, slot, origins);
    forall i | 0 <= i < |all| ensures EdgeOrdered(log.nodes, all[i]) && (i >= |log.edges| ==> Newer(all[i], n)) {
      if i < |log.edges| {
        assert all[i] == log.edges[i];
      } else {
        assert OfSlot(all[i], slot, origins);
        var j :| 0 <= j < |origins| && all[i] == EdgeOf(slot, origins[j]);
      }
    }
  }

  lemma {:induction false} LinkAllOrdered(log: Log, st: Settings, t: Ast, k: nat, i: nat, rest: seq<seq<Origin>>,
                                          n: nat)
    requires t.Op? && Ordered(log) && n <= k < log.next && log.nodes[k].OpNode? && log.nodes[k].arity == i + |rest|
    requires forall j :: 0 <= j < |rest| ==> OriginsBetween(rest[j], 0, k)
    ensures var after := log.(edges := LinkAll(log.edges, st, t, k, i, rest));
      Ordered(after) && log.edges <= after.edges
      && forall x :: |log.edges| <= x < |after.edges| ==> Newer(after.edges[x], n)
    decreases |rest|
  {
    if rest != [] {
      hide Ordered, Link, OriginsBetween;
      var one := log.(edges := Link(log.edges, SlotAt(st, t, k, i), rest[0]));
      LinkAdds(log.edges, SlotAt(st, t, k, i), rest[0]);
      LinkOrdered(log, SlotAt(st, t, k, i), rest[0], k, n);
      LinkAllOrdered(one, st, t, k, i + 1, rest[1..], n);
      var all := LinkAll(one.edges, st, t, k, i + 1, rest[1..]);
      forall x | |log.edges| <= x < |all| ensures Newer(all[x], n) {
        if x < |one.edges| { assert all[x] == one.edges[x]; }
      }
    }
  }

  lemma AddNodeOrdered(log: Log, node: NodeRecord)
    requires Ordered(log) && node.number == log.next
    ensures var after := Log(log.next + 1, log.nodes + [node], log.edges);
      Ordered(after) && Extends(log, after)
  {
    var nodes := log.nodes + [node];
    forall i | 0 <= i < |log.edges| ensures EdgeOrdered(nodes, log.edges[i]) {
      assert EdgeOrdered(log.nodes, log.edges[i]);
    }
  }

  lemma AddLiteral(log: Log, token: Token)
    requires Ordered(log)
    ensures Ordered(AddConst(log, token)) && Extends(log, AddConst(log, token))
  {
    hide Ordered, Extends, Shown;
    AddNodeOrdered(log, ConstNode(log.next, token, Shown(Const(token))));
  }

  lemma NextGrows(a: Log, b: Log)
    requires Extends(a, b)
    ensures a.next <= b.next
  {
  }

  lemma {:induction false} EmitItemsOrdered(st: Settings, token: string, via: string, items: seq<Item>, log: Log)
    requires Ordered(log)
    ensures var (after, origins) := EmitItems(st, token, via, items, log);
      Ordered(after) && Extends(log, after) && OriginsBetween(origins, log.next, after.next) && after.edges == log.edges
      && forall i :: 0 <= i < |origins| ==> origins[i].ref == token
    decreases |items|
  {
    SelfExtends(log);
    if items != [] {
      hide Ordered, Extends;
      var (one, first) := EmitItem(st, token, via, items[0], log);
      if items[0].Logical? && st.consts { AddLiteral(log, LogicalToken(items[0].truth)); }
      EmitItemsOrdered(st, token, via, items[1..], one);
      var after := EmitItems(st, token, via, items[1..], one).0;
      ExtendsTransitive(log, one, after);
      NextGrows(one, after);
    }
  }

  /** Whether a reference emits anything does not depend on what was emitted before. */
  lemma {:induction false} ItemsAgree(st: Settings, token: string, via: string, items: seq<Item>, a: Log, b: Log)
    ensures |EmitItems(st, token, via, items, a).1| == |EmitItems(st, token, via, items, b).1|
    decreases |items|
  {
    if items != [] {
      ItemsAgree(st, token, via, items[1..], EmitItem(st, token, via, items[0], a).0,
        EmitItem(st, token, via, items[0], b).0);
    }
  }

  lemma {:induction false} RetargetSources(origins: seq<Origin>, token: string)
    ensures |Retarget(origins, token)| == |origins|
    ensures forall i :: 0 <= i < |origins| ==> Retarget(origins, token)[i].source == origins[i].source
  {
    if origins != [] { RetargetSources(origins[1..], token); }
  }

  // ---------- the walk keeps the order ----------

  lemma IndirectOrdered(st: Settings, t: Ast, k: nat, log: Log)
    requires t.Op? && Ordered(log) && k + 1 == log.next && log.nodes[k].OpNode? && log.nodes[k].arity == |t.args|
    ensures var after := Indirect(st, t, k, log);
      Ordered(after) && after.next >= log.next && log.nodes <= after.nodes && log.edges <= after.edges
      && forall i :: |log.edges| <= i < |after.edges| ==> Newer(after.edges[i], k)
  {
    if st.indirect(t.args).Some? {
      hide EmitItems, Retarget, Link;
      var token := st.indirect(t.args).value;
      var (mid, origins) := EmitRef(st, token, log);
      EmitItemsOrdered(st, token, Via(token, st.resolve(token)), st.resolve(token), log);
      RetargetSources(origins, token);
      var slot, wired := Slot(Some(k), "resolved", |t.args|, Tag(t.kind, t.name)), Retarget(origins, token);
      LinkOrdered(mid, slot, wired, k, k);
      LinkAdds(mid.edges, slot, wired);
    }
  }

  function Below(st: Settings, t: Ast, log: Log): (r: Log)
    requires t.Op?
  {
    EmitAll(st, t.args, log).0
  }

  /** The log after an operator's own node and operand edges. */
  function WithNode(st: Settings, t: Ast, below: Log, origins: seq<seq<Origin>>): (r: Log)
    requires t.Op?
  {
    Log(below.next + 1, below.nodes + [OpNode(below.next, t.kind, Tag(t.kind, t.name), |t.args|, Shown(t))],
      LinkAll(below.edges, st, t, below.next, 0, origins))
  }

  lemma WithNodeOrdered(st: Settings, t: Ast, below: Log, origins: seq<seq<Origin>>)
    requires t.Op? && Ordered(below) && |origins| == |t.args|
    requires forall i :: 0 <= i < |origins| ==> OriginsBetween(origins[i], 0, below.next)
    ensures Ordered(WithNode(st, t, below, origins))
  {
    hide LinkAll, EdgeOrdered;
    var k := below.next;
    var bare := Log(k + 1, below.nodes + [OpNode(k, t.kind, Tag(t.kind, t.name), |t.args|, Shown(t))], below.edges);
    AddNodeOrdered(below, OpNode(k, t.kind, Tag(t.kind, t.name), |t.args|, Shown(t)));
    LinkAllOrdered(bare, st, t, k, 0, origins, k);
  }

  lemma NodeOrdered(st: Settings, t: Ast, below: Log, origins: seq<seq<Origin>>)
    requires t.Op? && Ordered(below) && |origins| == |t.args|
    requires forall i :: 0 <= i < |origins| ==> OriginsBetween(origins[i], 0, below.next)
    ensures var after := Indirect(st, t, below.next, WithNode(st, t, below, origins));
      Ordered(after) && Extends(below, after) && below.next < |after.nodes|
      && after.nodes[below.next] == OpNode(below.next, t.kind, Tag(t.kind, t.name), |t.args|, Shown(t))
  {
    hide LinkAll, Indirect, EdgeOrdered;
    var k := below.next;
    var bare := Log(k + 1, below.nodes + [OpNode(k, t.kind, Tag(t.kind, t.name), |t.args|, Shown(t))], below.edges);
    AddNodeOrdered(below, OpNode(k, t.kind, Tag(t.kind, t.name), |t.args|, Shown(t)));
    LinkAllOrdered(bare, st, t, k, 0, origins, k);
    var node := WithNode(st, t, below, origins);
    IndirectOrdered(st, t, k, node);
    var after := Indirect(st, t, k, node);
    forall i | |below.edges| <= i < |after.edges| ensures Newer(after.edges[i], k) {
      if i < |node.edges| { assert after.edges[i] == node.edges[i]; }
    }
  }

  lemma {:induction false} EmitOrdered(st: Settings, t: Ast, log: Log)
    requires Ordered(log)
    ensures var (after, origins) := Emit(st, t, log);
      Ordered(after) && Extends(log, after) && OriginsBetween(origins, log.next, after.next)
    decreases t, 0
  {
    match t
    case Ref(name) => EmitItemsOrdered(st, name, Via(name, st.resolve(name)), st.resolve(name), log);
    case Const(token) => if st.consts { AddLiteral(log, token); }
    case Missing =>
    case Op(kind, name, args, _) =>
      hide Ordered;
      var below := Below(st, t, log);
      EmitAllOrdered(st, args, log);
      NodeOrdered(st, t, below, EmitAll(st, args, log).1);
      ExtendsTransitive(log, below, Emit(st, t, log).0);
  }

  lemma {:induction false} EmitAllOrdered(st: Settings, ts: seq<Ast>, log: Log)
    requires Ordered(log)
    ensures var (after, origins) := EmitAll(st, ts, log);
      Ordered(after) && Extends(log, after) && forall i :: 0 <= i < |origins| ==>
        OriginsBetween(origins[i], 0, after.next)
    decreases ts, 1
  {
    SelfExtends(log);
    if ts != [] {
      hide Ordered, Extends, Emit;
      var (one, first) := Emit(st, ts[0], log);
      EmitOrdered(st, ts[0], log);
      EmitAllOrdered(st, ts[1..], one);
      var after := EmitAll(st, ts[1..], one).0;
      NextGrows(one, after);
      ExtendsTransitive(log, one, after);
      assert OriginsBetween(first, 0, after.next);
    }
  }

  // ---------- reading after linking ----------

  lemma {:induction false} FirstAppend(edges: seq<EdgeRecord>, e: EdgeRecord, target: Option<nat>, slot: nat)
    ensures First(edges + [e], target, slot)
      == if First(edges, target, slot).Some? then First(edges, target, slot)
         else if e.target == target && e.slot == slot then Some(e) else None
  {
    if edges != [] {
      assert (edges + [e])[1..] == edges[1..] + [e];
      FirstAppend(edges[1..], e, target, slot);
    } else {
      assert ([e])[1..] == [];
      assert edges + [e] == [e];
    }
  }

  lemma {:induction false} FirstExists(edges: seq<EdgeRecord>, i: nat)
    requires i < |edges|
    ensures First(edges, edges[i].target, edges[i].slot).Some?
  {
    if i > 0 { FirstExists(edges[1..], i - 1); }
  }

  lemma {:induction false} FirstNone(edges: seq<EdgeRecord>, target: Option<nat>, slot: nat)
    requires forall i :: 0 <= i < |edges| ==> edges[i].target != target
    ensures First(edges, target, slot) == None
  {
    if edges != [] { FirstNone(edges[1..], target, slot); }
  }

  lemma {:induction false} LinkFirst(edges: seq<EdgeRecord>, slot: Slot, origins: seq<Origin>, target: Option<nat>,
                                     index: nat)
    ensures First(Link(edges, slot, origins), target, index)
      == if First(edges, target, index).Some? then First(edges, target, index)
         else if origins != [] && slot.target == target && slot.index == index then Some(EdgeOf(slot, origins[0]))
         else None
    decreases |origins|
  {
    if origins != [] {
      hide First;
      var e := EdgeOf(slot, origins[0]);
      FirstAppend(edges, e, target, index);
      if i :| 0 <= i < |edges| && SameKey(edges[i], e) { FirstExists(edges, i); }
      LinkFirst(AddEdge(edges, e), slot, origins[1..], target, index);
    }
  }

  lemma {:induction false} LinkAllElsewhere(edges: seq<EdgeRecord>, st: Settings, t: Ast, k: nat, i: nat,
                                            rest: seq<seq<Origin>>, j: nat)
    requires t.Op? && j < i
    ensures First(LinkAll(edges, st, t, k, i, rest), Some(k), j) == First(edges, Some(k), j)
    decreases |rest|
  {
    if rest != [] {
      hide First, Link;
      LinkFirst(edges, SlotAt(st, t, k, i), rest[0], Some(k), j);
      LinkAllElsewhere(Link(edges, SlotAt(st, t, k, i), rest[0]), st, t, k, i + 1, rest[1..], j);
    }
  }

  lemma {:induction false} LinkAllBeyond(edges: seq<EdgeRecord>, st: Settings, t: Ast, k: nat, i: nat,
                                         rest: seq<seq<Origin>>, j: nat)
    requires t.Op? && i + |rest| <= j
    ensures First(LinkAll(edges, st, t, k, i, rest), Some(k), j) == First(edges, Some(k), j)
    decreases |rest|
  {
    if rest != [] {
      hide First, Link;
      LinkFirst(edges, SlotAt(st, t, k, i), rest[0], Some(k), j);
      LinkAllBeyond(Link(edges, SlotAt(st, t, k, i), rest[0]), st, t, k, i + 1, rest[1..], j);
    }
  }

  /** The first edge in slot j of node k, after all operands are linked. */
  lemma {:induction false} LinkAllFirst(edges: seq<EdgeRecord>, st: Settings, t: Ast, k: nat, i: nat,
                                        rest: seq<seq<Origin>>, j: nat)
    requires t.Op? && First(edges, Some(k), j) == None && i <= j < i + |rest|
    ensures First(LinkAll(edges, st, t, k, i, rest), Some(k), j)
      == if rest[j - i] == [] then None else Some(EdgeOf(SlotAt(st, t, k, j), rest[j - i][0]))
    decreases |rest|
  {
    hide First, Link;
    LinkFirst(edges, SlotAt(st, t, k, i), rest[0], Some(k), j);
    var one := Link(edges, SlotAt(st, t, k, i), rest[0]);
    if j > i {
      LinkAllFirst(one, st, t, k, i + 1, rest[1..], j);
    } else {
      LinkAllElsewhere(one, st, t, k, i + 1, rest[1..], j);
    }
  }

  lemma {:induction false} FirstPrefix(a: seq<EdgeRecord>, b: seq<EdgeRecord>, target: Option<nat>, slot: nat)
    requires forall i :: 0 <= i < |b| ==> b[i].target != target
    ensures First(a + b, target, slot) == First(a, target, slot)
  {
    if a == [] {
      assert a + b == b;
      FirstNone(b, target, slot);
    } else {
      assert (a + b)[1..] == a[1..] + b;
      FirstPrefix(a[1..], b, target, slot);
    }
  }

  lemma FirstStable(log: Log, later: Log, k: nat, slot: nat)
    requires Extends(log, later) && k < log.next
    ensures First(later.edges, Some(k), slot) == First(log.edges, Some(k), slot)
  {
    var more := later.edges[|log.edges|..];
    assert later.edges == log.edges + more;
    forall i | 0 <= i < |more| ensures more[i].target != Some(k) {
      assert Newer(later.edges[|log.edges| + i], log.next);
    }
    FirstPrefix(log.edges, more, Some(k), slot);
  }

  // ---------- what was read stays readable ----------

  lemma NodeKept(log: Log, later: Log, k: nat)
    requires Extends(log, later) && k < |log.nodes|
    ensures k < |later.nodes| && later.nodes[k] == log.nodes[k]
  {
  }

  lemma {:induction false} NodeStable(log: Log, later: Log, k: nat)
    requires Extends(log, later) && k < log.next == |log.nodes|
    ensures ReadNode(later, k) == ReadNode(log, k)
    decreases k, 2
  {
    hide Extends;
    NodeKept(log, later, k);
    if log.nodes[k].OpNode? {
      SlotsStable(log, later, k, log.nodes[k].arity);
      FirstStable(log, later, k, log.nodes[k].arity);
    }
  }

  lemma {:induction false} SlotsStable(log: Log, later: Log, k: nat, arity: nat)
    requires Extends(log, later) && k < log.next == |log.nodes|
    ensures ReadSlots(later, k, arity) == ReadSlots(log, k, arity)
    decreases k, 1, arity
  {
    if arity > 0 {
      hide Extends, First;
      SlotsStable(log, later, k, arity - 1);
      FirstStable(log, later, k, arity - 1);
      var e := First(log.edges, Some(k), arity - 1);
      if e.Some? && e.value.source.Own? && e.value.source.number < k { NodeStable(log, later, e.value.source.number); }
    }
  }

  /** What a slot filled with these origins reads as. */
  function Denotes(log: Log, origins: seq<Origin>): (r: Kept) {
    if origins == [] then NoOperand
    else if origins[0].ref != "" then KeptRef(origins[0].ref)
    else if origins[0].source.Own? then ReadNode(log, origins[0].source.number)
    else NoOperand
  }

  lemma DenotesStable(log: Log, later: Log, origins: seq<Origin>)
    requires Ordered(log) && Extends(log, later) && OriginsBetween(origins, 0, log.next)
    ensures Denotes(later, origins) == Denotes(log, origins)
  {
    hide Extends, ReadNode, EdgeOrdered;
    if origins != [] && origins[0].source.Own? { NodeStable(log, later, origins[0].source.number); }
  }

  lemma Shape(kind: OpKind, name: string)
    requires kind == Array ==> name == "{}"
    requires kind == Union ==> name == ","
    requires kind == Infix ==> name != "isect"
    ensures NameOf(kind, Tag(kind, name)) == name
  {
  }

  lemma {:induction false} ItemsKeepEdges(st: Settings, token: string, via: string, items: seq<Item>, log: Log)
    ensures EmitItems(st, token, via, items, log).0.edges == log.edges
    decreases |items|
  {
    if items != [] {
      ItemsKeepEdges(st, token, via, items[1..], EmitItem(st, token, via, items[0], log).0);
    }
  }

  lemma IndirectFirst(st: Settings, t: Ast, k: nat, log: Log, i: nat)
    requires t.Op? && i < |t.args|
    ensures First(Indirect(st, t, k, log).edges, Some(k), i) == First(log.edges, Some(k), i)
  {
    if st.indirect(t.args).Some? {
      hide First, Link, Retarget, EmitItems;
      var token := st.indirect(t.args).value;
      var (mid, origins) := EmitRef(st, token, log);
      ItemsKeepEdges(st, token, Via(token, st.resolve(token)), st.resolve(token), log);
      LinkFirst(mid.edges, Slot(Some(k), "resolved", |t.args|, Tag(t.kind, t.name)), Retarget(origins, token), Some(k),
        i);
    }
  }

  lemma OperandFirst(st: Settings, t: Ast, below: Log, origins: seq<seq<Origin>>, i: nat)
    requires t.Op? && Ordered(below) && |origins| == |t.args| && i < |t.args|
    ensures First(Indirect(st, t, below.next, WithNode(st, t, below, origins)).edges, Some(below.next), i)
      == if origins[i] == [] then None else Some(EdgeOf(SlotAt(st, t, below.next, i), origins[i][0]))
  {
    hide First, Link, LinkAll, EmitItems, Retarget;
    var k := below.next;
    forall x | 0 <= x < |below.edges| ensures below.edges[x].target != Some(k) {
      assert EdgeOrdered(below.nodes, below.edges[x]);
    }
    FirstNone(below.edges, Some(k), i);
    LinkAllFirst(below.edges, st, t, k, 0, origins, i);
    IndirectFirst(st, t, k, WithNode(st, t, below, origins), i);
  }

  lemma {:induction false} ItemsNothing(st: Settings, token: string, via: string, items: seq<Item>, log: Log)
    requires EmitItems(st, token, via, items, Log(0, [], [])).1 == []
    ensures EmitItems(st, token, via, items, log) == (log, [])
    decreases |items|
  {
    if items != [] && items[0].Logical? && !st.consts { ItemsNothing(st, token, via, items[1..], log); }
  }

  lemma PointsNowhere(st: Settings, t: Ast, k: nat, log: Log)
    requires t.Op? && Points(st, t) == None
    ensures Indirect(st, t, k, log) == log
  {
    if t.kind == Func && t.name == "INDIRECT" && t.args != [] && st.indirect(t.args).Some? {
      var token := st.indirect(t.args).value;
      ItemsNothing(st, token, Via(token, st.resolve(token)), st.resolve(token), log);
    }
  }

  lemma PointsSomewhere(st: Settings, t: Ast, k: nat, log: Log, slot: nat)
    requires t.Op? && Ordered(log) && Points(st, t).Some? && slot == |t.args| && First(log.edges, Some(k), slot) == None
    ensures var e := First(Indirect(st, t, k, log).edges, Some(k), slot);
      e.Some? && Some(e.value.ref) == Points(st, t)
  {
    hide First, Link, Retarget, EmitItems, Ordered;
    var token := st.indirect(t.args).value;
    var items := st.resolve(token);
    var (mid, origins) := EmitRef(st, token, log);
    EmitItemsOrdered(st, token, Via(token, items), items, log);
    ItemsAgree(st, token, Via(token, items), items, log, Log(0, [], []));
    RetargetAt(origins, token, 0);
    LinkFirst(mid.edges, Slot(Some(k), "resolved", |t.args|, Tag(t.kind, t.name)), Retarget(origins, token), Some(k),
      slot);
  }

  /** The slot after the operands tells what an INDIRECT call points at. */
  lemma PointsRead(st: Settings, t: Ast, below: Log, origins: seq<seq<Origin>>)
    requires t.Op? && Ordered(below) && |origins| == |t.args|
    requires forall i :: 0 <= i < |origins| ==> OriginsBetween(origins[i], 0, below.next)
    ensures ReadPoints(Indirect(st, t, below.next, WithNode(st, t, below, origins)), below.next, |t.args|)
      == Points(st, t)
  {
    hide First, Link, LinkAll, EmitItems, Retarget;
    var k, node := below.next, WithNode(st, t, below, origins);
    forall x | 0 <= x < |below.edges| ensures below.edges[x].target != Some(k) {
      assert EdgeOrdered(below.nodes, below.edges[x]);
    }
    FirstNone(below.edges, Some(k), |t.args|);
    LinkAllBeyond(below.edges, st, t, k, 0, origins, |t.args|);
    WithNodeOrdered(st, t, below, origins);
    hide Ordered, Indirect, Points, WithNode;
    if Points(st, t) == None { PointsNowhere(st, t, k, node); } else { PointsSomewhere(st, t, k, node, |t.args|); }
  }

  lemma OperandRead(st: Settings, t: Ast, below: Log, origins: seq<seq<Origin>>, i: nat)
    requires t.Op? && Ordered(below) && |origins| == |t.args| && i < |t.args|
    requires forall j :: 0 <= j < |origins| ==> OriginsBetween(origins[j], 0, below.next)
    ensures ReadSlot(Indirect(st, t, below.next, WithNode(st, t, below, origins)), Some(below.next), i, below.next)
      == Denotes(below, origins[i])
  {
    hide Ordered, Extends, Indirect, WithNode, First, ReadNode;
    NodeOrdered(st, t, below, origins);
    OperandFirst(st, t, below, origins, i);
    assert OriginsBetween(origins[i], 0, below.next);
    DenotesStable(below, Indirect(st, t, below.next, WithNode(st, t, below, origins)), origins[i]);
  }

  lemma {:induction false} OperandsRead(st: Settings, t: Ast, below: Log, origins: seq<seq<Origin>>, n: nat)
    requires t.Op? && Ordered(below) && |origins| == |t.args| && n <= |t.args|
    requires forall i :: 0 <= i < |origins| ==> OriginsBetween(origins[i], 0, below.next)
    requires forall i :: 0 <= i < |origins| ==> Denotes(below, origins[i]) == RecordedAll(st, t.args)[i]
    ensures ReadSlots(Indirect(st, t, below.next, WithNode(st, t, below, origins)), below.next, n)
        == RecordedAll(st, t.args)[..n]
    decreases n
  {
    hide Ordered, Extends, Indirect, WithNode, RecordedAll, Denotes, ReadSlot, OriginsBetween;
    var all := RecordedAll(st, t.args);
    if n > 0 {
      OperandsRead(st, t, below, origins, n - 1);
      OperandRead(st, t, below, origins, n - 1);
      assert all[..n] == all[..n - 1] + [all[n - 1]];
    }
  }

  lemma Lower(origins: seq<Origin>, low: nat, high: nat)
    requires OriginsBetween(origins, low, high)
    ensures OriginsBetween(origins, 0, high)
  {
  }

  lemma EmitShape(st: Settings, t: Ast, log: Log)
    requires t.Op?
    ensures var (below, origins) := EmitAll(st, t.args, log);
      Emit(st, t, log) == (Indirect(st, t, below.next, WithNode(st, t, below, origins)),
        [Origin(Own(below.next), "", "")])
  {
    hide EmitAll, Indirect, LinkAll;
  }

  lemma OperatorReads(st: Settings, t: Ast, log: Log)
    requires Ordered(log) && t.Op? && Named(t)
    ensures Denotes(Emit(st, t, log).0, Emit(st, t, log).1) == Recorded(st, t)
    decreases t, -1
  {
    hide Ordered, Extends, Emit, EmitAll, RecordedAll, Indirect, WithNode, LinkAll, ReadSlots, ReadPoints, Points;
    var (below, origins) := EmitAll(st, t.args, log);
    var k := below.next;
    EmitAllOrdered(st, t.args, log);
    EmitAllReads(st, t.args, log);
    NodeOrdered(st, t, below, origins);
    var after := Indirect(st, t, k, WithNode(st, t, below, origins));
    EmitShape(st, t, log);
    OperandsRead(st, t, below, origins, |t.args|);
    assert ReadSlots(after, k, |t.args|) == RecordedAll(st, t.args);
    PointsRead(st, t, below, origins);
    Shape(t.kind, t.name);
  }

  lemma {:induction false} EmitReads(st: Settings, t: Ast, log: Log)
    requires Ordered(log) && Named(t)
    ensures Denotes(Emit(st, t, log).0, Emit(st, t, log).1) == Recorded(st, t)
    decreases t, 0
  {
    match t
    case Ref(name) =>
      var items := st.resolve(name);
      EmitItemsOrdered(st, name, Via(name, items), items, log);
      ItemsAgree(st, name, Via(name, items), items, log, Log(0, [], []));
    case Const(_) =>
    case Missing =>
    case Op(kind, name, args, _) => OperatorReads(st, t, log);
  }

  lemma {:induction false} EmitAllReads(st: Settings, ts: seq<Ast>, log: Log)
    requires Ordered(log) && forall i :: 0 <= i < |ts| ==> Named(ts[i])
    ensures var (after, origins) := EmitAll(st, ts, log);
      forall i :: 0 <= i < |ts| ==> Denotes(after, origins[i]) == RecordedAll(st, ts)[i]
    decreases ts, 1
  {
    if ts != [] {
      hide Ordered, Extends, Emit, Denotes, Recorded, Named;
      var (one, first) := Emit(st, ts[0], log);
      EmitOrdered(st, ts[0], log);
      EmitReads(st, ts[0], log);
      EmitAllOrdered(st, ts[1..], one);
      EmitAllReads(st, ts[1..], one);
      var (after, rest) := EmitAll(st, ts[1..], one);
      Lower(first, log.next, one.next);
      DenotesStable(one, after, first);
    }
  }

  // ---------- the main results ----------

  lemma StartOrdered()
    ensures Ordered(Log(0, [], []))
  {
  }

  lemma InnerEdges(log: Log)
    requires Ordered(log)
    ensures log.next == |log.nodes|
    ensures forall i :: 0 <= i < |log.edges| ==> log.edges[i].target.Some?
  {
    forall i | 0 <= i < |log.edges| ensures log.edges[i].target.Some? {
      assert EdgeOrdered(log.nodes, log.edges[i]);
    }
  }

  lemma {:induction false} RootNodeStable(log: Log, slot: Slot, origins: seq<Origin>, k: nat)
    requires slot.target == None
    ensures ReadNode(log.(edges := Link(log.edges, slot, origins)), k) == ReadNode(log, k)
    decreases k, 2
  {
    hide Link;
    if k < |log.nodes| && log.nodes[k].OpNode? {
      RootSlotsStable(log, slot, origins, k, log.nodes[k].arity);
      LinkFirst(log.edges, slot, origins, Some(k), log.nodes[k].arity);
    }
  }

  lemma {:induction false} RootSlotsStable(log: Log, slot: Slot, origins: seq<Origin>, k: nat, arity: nat)
    requires slot.target == None
    ensures ReadSlots(log.(edges := Link(log.edges, slot, origins)), k, arity) == ReadSlots(log, k, arity)
    decreases k, 1, arity
  {
    if arity > 0 {
      hide Link, First;
      RootSlotsStable(log, slot, origins, k, arity - 1);
      LinkFirst(log.edges, slot, origins, Some(k), arity - 1);
      var e := First(log.edges, Some(k), arity - 1);
      if e.Some? && e.value.source.Own?
        && e.value.source.number < k { RootNodeStable(log, slot, origins, e.value.source.number); }
    }
  }

  /** The edges into the cell do not disturb what the nodes read as. */
  lemma RootStable(log: Log, slot: Slot, origins: seq<Origin>)
    requires Ordered(log) && slot.target == None
    ensures Denotes(log.(edges := Link(log.edges, slot, origins)), origins) == Denotes(log, origins)
  {
    if origins != [] && origins[0].source.Own? {
      hide Link;
      RootNodeStable(log, slot, origins, origins[0].source.number);
    }
  }

  /** A formula's records determine its tree: operators, constants, references, operand positions
      and empty slots. Only operands that emit nothing and the row counts of arrays are missing. */
  lemma RecordsRebuild(st: Settings, t: Ast)
    requires Named(t)
    ensures Rebuild(Records(st, t)) == Recorded(st, t)
  {
    hide Ordered, Extends, Link, First, Emit, Recorded, ReadNode;
    var start := Log(0, [], []);
    StartOrdered();
    EmitOrdered(st, t, start);
    EmitReads(st, t, start);
    var (log, origins) := Emit(st, t, start);
    var all := Records(st, t);
    InnerEdges(log);
    FirstNone(log.edges, None, 0);
    LinkFirst(log.edges, RootSlot(t), origins, None, 0);
    RootStable(log, RootSlot(t), origins);
  }

  /** Node numbers are the positions 0, 1, 2, ..., so no two nodes share one; an edge between two of
      the formula's nodes goes from the lower number to the higher exactly when it is an operand. */
  lemma RecordsAreOrdered(st: Settings, t: Ast)
    ensures var log := Records(st, t);
      && log.next == |log.nodes|
      && (forall k :: 0 <= k < log.next ==> log.nodes[k].number == k)
      && forall i :: 0 <= i < |log.edges| && log.edges[i].target.Some? ==> EdgeOrdered(log.nodes, log.edges[i])
  {
    hide Extends, Link, Emit;
    StartOrdered();
    EmitOrdered(st, t, Log(0, [], []));
    var (log, origins) := Emit(st, t, Log(0, [], []));
    LinkAdds(log.edges, RootSlot(t), origins);
    var all := Records(st, t).edges;
    forall i | 0 <= i < |all| && all[i].target.Some? ensures EdgeOrdered(log.nodes, all[i]) {
      if i < |log.edges| { assert all[i] == log.edges[i]; }
    }
  }

  // ---------- exactly what is lost ----------

  lemma {:induction false} EmitNothing(st: Settings, t: Ast, log: Log)
    requires Recorded(st, t) == NoOperand
    ensures Emit(st, t, log) == (log, [])
  {
    if t.Ref? { ItemsNothing(st, t.name, Via(t.name, st.resolve(t.name)), st.resolve(t.name), log); }
  }

  lemma {:induction false} LinkAllSees(edges: seq<EdgeRecord>, st: Settings, a: Ast, b: Ast, k: nat, i: nat,
                                       rest: seq<seq<Origin>>)
    requires a.Op? && b.Op? && a.kind == b.kind && a.name == b.name && |a.args| == |b.args|
    ensures LinkAll(edges, st, a, k, i, rest) == LinkAll(edges, st, b, k, i, rest)
    decreases |rest|
  {
    if rest != [] {
      hide Link;
      LinkAllSees(Link(edges, SlotAt(st, a, k, i), rest[0]), st, a, b, k, i + 1, rest[1..]);
    }
  }

  lemma IndirectSees(st: Settings, a: Ast, b: Ast, k: nat, log: Log)
    requires a.Op? && b.Op? && a.kind == b.kind && a.name == b.name && |a.args| == |b.args|
    requires Points(st, a) == Points(st, b)
    ensures Indirect(st, a, k, log) == Indirect(st, b, k, log)
  {
    if Points(st, a) == None {
      PointsNowhere(st, a, k, log);
      PointsNowhere(st, b, k, log);
    }
    hide Link, EmitItems;
  }

  lemma {:induction false} EmitSees(st: Settings, a: Ast, b: Ast, log: Log)
    requires Recorded(st, a) == Recorded(st, b)
    ensures Emit(st, a, log) == Emit(st, b, log)
    decreases a, 0
  {
    var zero := Log(0, [], []);
    if a.Op? {
      hide LinkAll, Indirect, RecordedAll;
      assert b.Op?;
      EmitAllSees(st, a.args, b.args, log);
      var (below, origins) := EmitAll(st, a.args, log);
      LinkAllSees(below.edges, st, a, b, below.next, 0, origins);
      IndirectSees(st, a, b, below.next,
        Log(below.next + 1, below.nodes + [OpNode(below.next, a.kind, Tag(a.kind, a.name), |a.args|, Shown(a))],
        LinkAll(below.edges, st, a, below.next, 0, origins)));
    } else if Recorded(st, a) == NoOperand {
      EmitNothing(st, a, log);
      EmitNothing(st, b, log);
    }
  }

  lemma {:induction false} EmitAllSees(st: Settings, a: seq<Ast>, b: seq<Ast>, log: Log)
    requires RecordedAll(st, a) == RecordedAll(st, b)
    ensures EmitAll(st, a, log) == EmitAll(st, b, log)
    decreases a, 1
  {
    assert |RecordedAll(st, a)| == |RecordedAll(st, b)|;
    if a != [] {
      hide Emit, Recorded;
      var first, second := RecordedAll(st, a), RecordedAll(st, b);
      assert first[0] == Recorded(st, a[0]) && second[0] == Recorded(st, b[0]);
      assert first[1..] == RecordedAll(st, a[1..]) && second[1..] == RecordedAll(st, b[1..]);
      EmitSees(st, a[0], b[0], log);
      EmitAllSees(st, a[1..], b[1..], Emit(st, a[0], log).0);
    }
  }

  lemma NothingLinked(slot: Slot)
    ensures Link([], slot, []) == []
  {
  }

  /** Two formulas have the same records exactly when they show the same: the same operators over the
      same operands, empty where an operand emits nothing, each with the same text up to the cut, and
      INDIRECT calls that point at the same. */
  lemma SameRecords(st: Settings, a: Ast, b: Ast)
    requires Named(a) && Named(b)
    ensures Records(st, a) == Records(st, b) <==> Recorded(st, a) == Recorded(st, b)
  {
    hide Named, Emit, Link, Rebuild;
    RecordsRebuild(st, a);
    RecordsRebuild(st, b);
    if Recorded(st, a) == Recorded(st, b) {
      EmitSees(st, a, b, Log(0, [], []));
      if Recorded(st, a) == NoOperand {
        EmitNothing(st, a, Log(0, [], []));
        EmitNothing(st, b, Log(0, [], []));
        NothingLinked(RootSlot(a));
        NothingLinked(RootSlot(b));
      }
    }
  }
}
