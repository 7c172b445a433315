/** Whatever tokens the parser accepts, well-formed or not, their operands are the leaves of the
    tree in order and each operator token is one node of it. */
module FormulaConservation {
  import opened Options
  import opened FormulaTokens
  import opened FormulaParser

  // ---------- leaves ----------

  /** The operand tokens at the leaves of a tree, left to right; missing slots have none. */
  function Leaves(t: Ast): (r: seq<Token>)
    decreases t
  {
    match t
    case Ref(name) => [RangeTok(name)]
    case Const(token) => [token]
    case Missing => []
    case Op(_, _, args, _) => LeavesAll(args)
  }

  function LeavesAll(ts: seq<Ast>): (r: seq<Token>)
    decreases ts
  {
    if ts == [] then [] else LeavesAll(ts[..|ts| - 1]) + Leaves(ts[|ts| - 1])
  }

  function ItemLeaves(item: Item): (r: seq<Token>) {
    if item.Plain? && (item.token.RangeTok? || item.token.ConstTok? || item.token.LiteralTok?) then [item.token] else []
  }

  function ItemsLeaves(items: seq<Item>): (r: seq<Token>) {
    if items == [] then [] else ItemLeaves(items[0]) + ItemsLeaves(items[1..])
  }

  lemma {:induction false} LeavesAllConcat(a: seq<Ast>, b: seq<Ast>)
    ensures LeavesAll(a + b) == LeavesAll(a) + LeavesAll(b)
    decreases |b|
  {
    if b == [] {
      assert a + b == a;
    } else {
      assert (a + b)[..|a + b| - 1] == a + b[..|b| - 1];
      LeavesAllConcat(a, b[..|b| - 1]);
    }
  }

  // ---------- leaves of the two stacks ----------

  /** Frames start within the operands that are there. */
  ghost predicate StartsWithin(n: nat, stack: seq<Entry>) {
    stack == [] ||
    match stack[|stack| - 1]
    case Pending(_, _, _) => StartsWithin(n, stack[..|stack| - 1])
    case Opened(frame) => frame.start <= n && StartsWithin(frame.start, stack[..|stack| - 1])
  }

  /** In source order: what lies below a frame, the arguments it has collected, what lies above its start. */
  ghost function StackLeaves(out: seq<Ast>, stack: seq<Entry>): (r: seq<Token>)
    requires StartsWithin(|out|, stack)
    decreases |stack|
  {
    if stack == [] then LeavesAll(out)
    else
      match stack[|stack| - 1]
      case Pending(_, _, _) => StackLeaves(out, stack[..|stack| - 1])
      case Opened(frame) =>
        StackLeaves(out[..frame.start], stack[..|stack| - 1]) + LeavesAll(Present(frame.args))
          + LeavesAll(out[frame.start..])
  }

  ghost predicate NoOffsetCall(stack: seq<Entry>) {
    forall i :: 0 <= i < |stack| && stack[i].Opened? ==> !IsCellOffset(stack[i].frame.name)
  }

  ghost predicate Sound(st: State) {
    StartsWithin(|st.out|, st.stack) && NoOffsetCall(st.stack)
  }

  lemma {:induction false} FloorWithin(n: nat, stack: seq<Entry>)
    requires StartsWithin(n, stack)
    ensures Floor(stack) <= n
    ensures forall m: nat :: Floor(stack) <= m ==> StartsWithin(m, stack)
    decreases |stack|
  {
    if stack != [] && stack[|stack| - 1].Pending? {
      FloorWithin(n, stack[..|stack| - 1]);
    }
  }

  /** Operands at or above the floor come last. */
  lemma {:induction false} LeavesAboveFloor(base: seq<Ast>, tail: seq<Ast>, stack: seq<Entry>)
    requires StartsWithin(|base|, stack)
    ensures StartsWithin(|base + tail|, stack)
    ensures StackLeaves(base + tail, stack) == StackLeaves(base, stack) + LeavesAll(tail)
    decreases |stack|
  {
    hide LeavesAll, Present;
    FloorWithin(|base|, stack);
    if stack == [] {
      LeavesAllConcat(base, tail);
    } else if stack[|stack| - 1].Pending? {
      LeavesAboveFloor(base, tail, stack[..|stack| - 1]);
    } else {
      var start := stack[|stack| - 1].frame.start;
      assert (base + tail)[..start] == base[..start];
      assert (base + tail)[start..] == base[start..] + tail;
      LeavesAllConcat(base[start..], tail);
    }
  }

  lemma ApplyOpLeaves(out: seq<Ast>, stack: seq<Entry>, op: string, kind: OpKind)
    requires StartsWithin(|out|, stack) && ApplyOp(out, Floor(stack), op, kind).Ok?
    ensures var after := ApplyOp(out, Floor(stack), op, kind).value;
      StartsWithin(|after|, stack) && StackLeaves(after, stack) == StackLeaves(out, stack)
  {
    var after := ApplyOp(out, Floor(stack), op, kind).value;
    var cut := |out| - Need(kind);
    FloorWithin(|out|, stack);
    var node := Op(kind, op, out[cut..], 0);
    LeavesAboveFloor(out[..cut], out[cut..], stack);
    LeavesAboveFloor(out[..cut], [node], stack);
    assert out == out[..cut] + out[cut..];
    assert LeavesAll([node]) == LeavesAll([]) + Leaves(node);
  }

  lemma {:induction false} UnwindLeaves(st: State, minPrec: Option<nat>)
    requires Sound(st) && Unwind(st, minPrec).Ok?
    ensures var s := Unwind(st, minPrec).value;
      && Sound(s) && StackLeaves(s.out, s.stack) == StackLeaves(st.out, st.stack)
    decreases |st.stack|
  {
    if st.stack != [] && Yields(st.stack[|st.stack| - 1], minPrec) {
      var top, rest := st.stack[|st.stack| - 1], st.stack[..|st.stack| - 1];
      ApplyOpLeaves(st.out, rest, top.op, top.kind);
      UnwindLeaves(State(ApplyOp(st.out, Floor(rest), top.op, top.kind).value, rest), minPrec);
    }
  }

  lemma CollectLeaves(frame: Frame, out: seq<Ast>)
    requires frame.start <= |out| && Collect(frame, out).Ok?
    ensures var (f, rest) := Collect(frame, out).value;
      && |rest| == frame.start == f.start && rest == out[..frame.start] && f.name == frame.name
        && f.bracket == frame.bracket
      && LeavesAll(Present(f.args)) == LeavesAll(Present(frame.args)) + LeavesAll(out[frame.start..])
  {
    var (f, rest) := Collect(frame, out).value;
    assert f.args[..|f.args| - 1] == frame.args;
    var added := if f.args[|f.args| - 1].Some? then [f.args[|f.args| - 1].value] else [];
    assert Present(f.args) == Present(frame.args) + added;
    LeavesAllConcat(Present(frame.args), added);
    assert |out| == frame.start ==> LeavesAll(added) == [] && out[frame.start..] == [];
    assert |out| > frame.start ==> out[frame.start..] == added;
  }

  lemma CloseFrameShape(frame: Frame)
    requires CloseFrame(frame).Ok? && !IsCellOffset(frame.name)
    ensures var args := Present(frame.args); var node := CloseFrame(frame).value;
      match frame.bracket
      case FuncBracket => node == Op(Func, frame.name, args, 0)
        || (args == [Missing] && node == Op(Func, frame.name, [], 0))
      case ArrayBracket => node == Op(Array, "{}", args, |frame.rows| + 1)
      case ParenBracket => (|args| > 1 && node == Op(Union, ",", args, 0)) || args == [node]
  {
    hide IsCellOffset, SignedInteger, OnSheet, CellAddress;
    assert StaticRange(frame.name, []).None?;
  }

  lemma SingleLeaves(t: Ast)
    ensures LeavesAll([t]) == Leaves(t)
  {
    assert [t][..0] == [];
  }

  lemma CloseFrameLeaves(frame: Frame)
    requires CloseFrame(frame).Ok? && !IsCellOffset(frame.name)
    ensures Leaves(CloseFrame(frame).value) == LeavesAll(Present(frame.args))
  {
    hide CloseFrame, IsCellOffset, Present;
    CloseFrameShape(frame);
    SingleLeaves(CloseFrame(frame).value);
    SingleLeaves(Missing);
  }

  /** The frame on top once the pending operators above it are applied. */
  lemma SepShape(st: State, row: bool) returns (u: State, frame: Frame, f: Frame, rest: seq<Ast>)
    requires FeedSep(st, row).Ok?
    ensures Unwind(st, None) == Ok(u) && |u.stack| > 0 && u.stack[|u.stack| - 1] == Opened(frame)
    ensures Collect(frame, u.out) == Ok((f, rest))
    ensures var s := FeedSep(st, row).value;
      && s.out == rest && s.stack == u.stack[..|u.stack| - 1] + [s.stack[|s.stack| - 1]]
      && |s.stack| == |u.stack| && s.stack[|s.stack| - 1].Opened?
      && var g := s.stack[|s.stack| - 1].frame;
         g.start == |rest| && g.args == f.args && g.name == f.name && g.bracket == f.bracket
  {
    hide Unwind, Collect;
    u := Unwind(st, None).value;
    frame := u.stack[|u.stack| - 1].frame;
    f, rest := Collect(frame, u.out).value.0, Collect(frame, u.out).value.1;
  }

  lemma CloseShape(st: State) returns (u: State, frame: Frame, f: Frame, rest: seq<Ast>, node: Ast)
    requires FeedClose(st).Ok?
    ensures Unwind(st, None) == Ok(u) && |u.stack| > 0 && u.stack[|u.stack| - 1] == Opened(frame)
    ensures Collect(frame, u.out) == Ok((f, rest)) && CloseFrame(f) == Ok(node)
    ensures FeedClose(st).value == State(rest + [node], u.stack[..|u.stack| - 1])
  {
    hide Unwind, Collect, CloseFrame;
    u := Unwind(st, None).value;
    frame := u.stack[|u.stack| - 1].frame;
    f, rest := Collect(frame, u.out).value.0, Collect(frame, u.out).value.1;
    node := CloseFrame(f).value;
  }

  lemma TopFrameWithin(st: State, frame: Frame)
    requires Sound(st) && |st.stack| > 0 && st.stack[|st.stack| - 1] == Opened(frame)
    ensures frame.start <= |st.out| && StartsWithin(frame.start, st.stack[..|st.stack| - 1])
    ensures !IsCellOffset(frame.name)
    ensures NoOffsetCall(st.stack[..|st.stack| - 1])
    ensures StackLeaves(st.out, st.stack) == StackLeaves(st.out[..frame.start], st.stack[..|st.stack| - 1])
              + LeavesAll(Present(frame.args)) + LeavesAll(st.out[frame.start..])
  {
    hide IsCellOffset, Present, LeavesAll;
  }

  lemma EmptyLeaves()
    ensures LeavesAll([]) == []
  {
  }

  lemma SepLeaves(st: State, row: bool)
    requires Sound(st) && FeedSep(st, row).Ok?
    ensures var s := FeedSep(st, row).value;
      Sound(s) && StackLeaves(s.out, s.stack) == StackLeaves(st.out, st.stack)
  {
    hide IsCellOffset, FeedSep, Unwind, Collect, Present, LeavesAll, StackLeaves;
    var u, frame, f, rest := SepShape(st, row);
    UnwindLeaves(st, None);
    TopFrameWithin(u, frame);
    CollectLeaves(frame, u.out);
    var s := FeedSep(st, row).value;
    var below := u.stack[..|u.stack| - 1];
    assert s.stack[..|s.stack| - 1] == below;
    assert Sound(s);
    TopFrameWithin(s, s.stack[|s.stack| - 1].frame);
    assert s.out[..frame.start] == u.out[..frame.start];
    assert s.out[frame.start..] == [];
    EmptyLeaves();
  }

  lemma CloseLeaves(st: State)
    requires Sound(st) && FeedClose(st).Ok?
    ensures var s := FeedClose(st).value;
      Sound(s) && StackLeaves(s.out, s.stack) == StackLeaves(st.out, st.stack)
  {
    hide IsCellOffset, FeedClose, Unwind, Collect, CloseFrame, Present, LeavesAll, StackLeaves, NoOffsetCall;
    hide StartsWithin;
    var u, frame, f, rest, node := CloseShape(st);
    UnwindLeaves(st, None);
    TopFrameWithin(u, frame);
    CollectLeaves(frame, u.out);
    CloseFrameLeaves(f);
    LeavesAboveFloor(rest, [node], u.stack[..|u.stack| - 1]);
    SingleLeaves(node);
  }

  ghost predicate OpensNoOffset(item: Item) {
    item.Plain? && item.token.OpenTok? && item.token.bracket == FuncBracket ==>
      !IsCellOffset(FuncName(item.token.value))
  }

  lemma PushLeaves(st: State, t: Ast)
    requires StartsWithin(|st.out|, st.stack)
    ensures StartsWithin(|st.out + [t]|, st.stack)
    ensures StackLeaves(st.out + [t], st.stack) == StackLeaves(st.out, st.stack) + Leaves(t)
  {
    LeavesAboveFloor(st.out, [t], st.stack);
    assert LeavesAll([t]) == LeavesAll([]) + Leaves(t);
  }

  /** Pushing an operator or an empty frame moves no operand. */
  lemma OpenLeaves(st: State, e: Entry)
    requires Sound(st)
    requires e.Opened? ==> e.frame.start == |st.out| && e.frame.args == [] && !IsCellOffset(e.frame.name)
    ensures Sound(st.(stack := st.stack + [e])) && StackLeaves(st.out, st.stack + [e]) == StackLeaves(st.out, st.stack)
  {
    hide IsCellOffset;
    assert (st.stack + [e])[..|st.stack|] == st.stack;
    assert st.out[..|st.out|] == st.out;
  }

  lemma InfixLeaves(st: State, op: string)
    requires Sound(st) && FeedInfix(st, op).Ok?
    ensures var s := FeedInfix(st, op).value;
      Sound(s) && StackLeaves(s.out, s.stack) == StackLeaves(st.out, st.stack)
  {
    hide Unwind, InfixPrec, IsCellOffset;
    UnwindLeaves(st, InfixPrec(op));
    OpenLeaves(Unwind(st, InfixPrec(op)).value, Pending(op, Infix, InfixPrec(op).value));
  }

  lemma NoBracketNoOffset()
    ensures !IsCellOffset("")
  {
  }

  lemma LeafOf(token: Token)
    ensures Leaves(Const(token)) == [token] && (token.RangeTok? ==> Leaves(Ref(token.value)) == [token])
  {
  }

  /** One token adds its own operand, if it is one, at the end, and loses nothing. */
  lemma FeedLeaves(st: State, item: Item)
    requires Sound(st) && Feed(st, item).Ok? && OpensNoOffset(item)
    ensures var s := Feed(st, item).value;
      Sound(s) && StackLeaves(s.out, s.stack) == StackLeaves(st.out, st.stack) + ItemLeaves(item)
  {
    hide FeedInfix, FeedSep, FeedClose, ApplyOp, StackLeaves, StartsWithin, IsCellOffset, Floor, LeavesAll, Leaves;
    match item
    case Intersect => InfixLeaves(st, " ");
    case Plain(InfixTok(op)) => InfixLeaves(st, op);
    case Plain(RangeTok(value)) => PushLeaves(st, Ref(value)); LeafOf(item.token);
    case Plain(ConstTok(_, _, _)) => PushLeaves(st, Const(item.token)); LeafOf(item.token);
    case Plain(LiteralTok(_)) => PushLeaves(st, Const(item.token)); LeafOf(item.token);
    case Plain(OpenTok(bracket, value)) => NoBracketNoOffset(); OpenLeaves(st, Feed(st, item).value.stack[|st.stack|]);
    case Plain(SepTok(row)) => SepLeaves(st, row);
    case Plain(CloseTok(_)) => CloseLeaves(st);
    case Plain(PrefixTok(op)) => OpenLeaves(st, Pending(op, Prefix, PREFIX_PREC));
    case Plain(PostfixTok(op)) => ApplyOpLeaves(st.out, st.stack, op, Postfix);
    case Plain(_) =>
  }

  lemma {:induction false} FeedAllLeaves(st: State, items: seq<Item>)
    requires Sound(st) && FeedAll(st, items).Ok? && forall i :: 0 <= i < |items| ==> OpensNoOffset(items[i])
    ensures var s := FeedAll(st, items).value;
      Sound(s) && StackLeaves(s.out, s.stack) == StackLeaves(st.out, st.stack) + ItemsLeaves(items)
    decreases |items|
  {
    hide StaticRange, IsCellOffset, Feed, StackLeaves, Sound, OpensNoOffset, ItemLeaves;
    if items != [] {
      FeedLeaves(st, items[0]);
      assert forall i :: 0 <= i < |items[1..]| ==> items[1..][i] == items[i + 1];
      FeedAllLeaves(Feed(st, items[0]).value, items[1..]);
    }
  }

  // ---------- operators ----------

  datatype Tag = Tag(kind: OpKind, name: string)

  /** The operator nodes of a tree; a union is made by separators, not by an operator token. */
  function Tags(t: Ast): (r: multiset<Tag>)
    decreases t
  {
    match t
    case Op(kind, name, args, _) => TagsAll(args) + if kind == Union then multiset{} else multiset{Tag(kind, name)}
    case _ => multiset{}
  }

  function TagsAll(ts: seq<Ast>): (r: multiset<Tag>)
    decreases ts
  {
    if ts == [] then multiset{} else TagsAll(ts[..|ts| - 1]) + Tags(ts[|ts| - 1])
  }

  function ItemTags(item: Item): (r: multiset<Tag>) {
    match item
    case Intersect => multiset{Tag(Infix, " ")}
    case Plain(InfixTok(op)) => multiset{Tag(Infix, op)}
    case Plain(PrefixTok(op)) => multiset{Tag(Prefix, op)}
    case Plain(PostfixTok(op)) => multiset{Tag(Postfix, op)}
    case Plain(OpenTok(FuncBracket, value)) => multiset{Tag(Func, FuncName(value))}
    case Plain(OpenTok(ArrayBracket, _)) => multiset{Tag(Array, "{}")}
    case _ => multiset{}
  }

  function ItemsTags(items: seq<Item>): (r: multiset<Tag>) {
    if items == [] then multiset{} else ItemTags(items[0]) + ItemsTags(items[1..])
  }

  function FrameTag(frame: Frame): (r: multiset<Tag>) {
    match frame.bracket
    case FuncBracket => multiset{Tag(Func, frame.name)}
    case ArrayBracket => multiset{Tag(Array, "{}")}
    case ParenBracket => multiset{}
  }

  function EntryTags(e: Entry): (r: multiset<Tag>) {
    match e
    case Pending(op, kind, _) => multiset{Tag(kind, op)}
    case Opened(frame) => TagsAll(Present(frame.args)) + FrameTag(frame)
  }

  function StackTags(stack: seq<Entry>): (r: multiset<Tag>) {
    if stack == [] then multiset{} else StackTags(stack[..|stack| - 1]) + EntryTags(stack[|stack| - 1])
  }

  function StateTags(st: State): (r: multiset<Tag>) { TagsAll(st.out) + StackTags(st.stack) }

  lemma {:induction false} TagsAllConcat(a: seq<Ast>, b: seq<Ast>)
    ensures TagsAll(a + b) == TagsAll(a) + TagsAll(b)
    decreases |b|
  {
    if b == [] {
      assert a + b == a;
    } else {
      assert (a + b)[..|a + b| - 1] == a + b[..|b| - 1];
      TagsAllConcat(a, b[..|b| - 1]);
    }
  }

  lemma PushTags(out: seq<Ast>, t: Ast)
    ensures TagsAll(out + [t]) == TagsAll(out) + Tags(t)
  {
    assert (out + [t])[..|out + [t]| - 1] == out;
  }

  lemma NodeTags(kind: OpKind, op: string, args: seq<Ast>)
    requires kind != Union
    ensures Tags(Op(kind, op, args, 0)) == multiset{Tag(kind, op)} + TagsAll(args)
  {
    hide TagsAll;
  }

  lemma ApplyOpTags(out: seq<Ast>, floor: nat, op: string, kind: OpKind)
    requires ApplyOp(out, floor, op, kind).Ok? && kind != Union
    ensures TagsAll(ApplyOp(out, floor, op, kind).value) == TagsAll(out) + multiset{Tag(kind, op)}
  {
    var cut := |out| - Need(kind);
    hide TagsAll, Tags;
    TagsAllConcat(out[..cut], out[cut..]);
    assert out == out[..cut] + out[cut..];
    PushTags(out[..cut], Op(kind, op, out[cut..], 0));
    NodeTags(kind, op, out[cut..]);
  }

  ghost predicate NoUnionPending(stack: seq<Entry>) {
    forall i :: 0 <= i < |stack| && stack[i].Pending? ==> stack[i].kind != Union
  }

  ghost predicate Ready(st: State) { Sound(st) && NoUnionPending(st.stack) }

  lemma {:induction false} UnwindTags(st: State, minPrec: Option<nat>)
    requires Ready(st) && Unwind(st, minPrec).Ok?
    ensures var s := Unwind(st, minPrec).value; NoUnionPending(s.stack) && StateTags(s) == StateTags(st)
    decreases |st.stack|
  {
    if st.stack != [] && Yields(st.stack[|st.stack| - 1], minPrec) {
      var top, rest := st.stack[|st.stack| - 1], st.stack[..|st.stack| - 1];
      ApplyOpTags(st.out, Floor(rest), top.op, top.kind);
      ApplyOpLeaves(st.out, rest, top.op, top.kind);
      var next := State(ApplyOp(st.out, Floor(rest), top.op, top.kind).value, rest);
      UnwindTags(next, minPrec);
    }
  }

  lemma CollectShape(frame: Frame, out: seq<Ast>) returns (added: seq<Ast>)
    requires frame.start <= |out| && Collect(frame, out).Ok?
    ensures var (f, rest) := Collect(frame, out).value;
      && f.name == frame.name && f.bracket == frame.bracket && Present(f.args) == Present(frame.args) + added
      && (out == rest + added || (out == rest && added == [Missing]))
  {
    var (f, rest) := Collect(frame, out).value;
    assert f.args[..|f.args| - 1] == frame.args;
    added := if f.args[|f.args| - 1].Some? then [f.args[|f.args| - 1].value] else [];
    assert |out| > frame.start ==> out == rest + added;
  }

  lemma SingleTags(t: Ast)
    ensures TagsAll([t]) == Tags(t)
  {
    assert [t][..0] == [];
  }

  lemma CollectTags(frame: Frame, out: seq<Ast>)
    requires frame.start <= |out| && Collect(frame, out).Ok?
    ensures var (f, rest) := Collect(frame, out).value;
      FrameTag(f) == FrameTag(frame)
        && TagsAll(rest) + TagsAll(Present(f.args)) == TagsAll(out) + TagsAll(Present(frame.args))
  {
    hide Collect, Present, TagsAll;
    var added := CollectShape(frame, out);
    var (f, rest) := Collect(frame, out).value;
    TagsAllConcat(Present(frame.args), added);
    TagsAllConcat(rest, added);
    SingleTags(Missing);
  }

  lemma CloseFrameTags(frame: Frame)
    requires CloseFrame(frame).Ok? && !IsCellOffset(frame.name)
    ensures Tags(CloseFrame(frame).value) == TagsAll(Present(frame.args)) + FrameTag(frame)
  {
    hide CloseFrame, IsCellOffset, Present;
    CloseFrameShape(frame);
    SingleTags(CloseFrame(frame).value);
    SingleTags(Missing);
  }

  lemma OpenTags(st: State, e: Entry)
    ensures StateTags(st.(stack := st.stack + [e])) == StateTags(st) + EntryTags(e)
  {
    hide EntryTags, TagsAll;
    assert (st.stack + [e])[..|st.stack|] == st.stack;
  }

  lemma InfixTags(st: State, op: string)
    requires Ready(st) && FeedInfix(st, op).Ok?
    ensures var s := FeedInfix(st, op).value;
      NoUnionPending(s.stack) && StateTags(s) == StateTags(st) + multiset{Tag(Infix, op)}
  {
    hide Unwind, InfixPrec, Sound, StateTags;
    UnwindTags(st, InfixPrec(op));
    OpenTags(Unwind(st, InfixPrec(op)).value, Pending(op, Infix, InfixPrec(op).value));
  }

  lemma OperandTags(st: State, item: Item)
    requires item.Plain? && (item.token.RangeTok? || item.token.ConstTok? || item.token.LiteralTok?)
    requires Feed(st, item).Ok?
    ensures Feed(st, item).value.stack == st.stack && StateTags(Feed(st, item).value) == StateTags(st) + ItemTags(item)
  {
    hide TagsAll, StackTags;
    PushTags(st.out, if item.token.RangeTok? then Ref(item.token.value) else Const(item.token));
  }

  lemma PendingTags(op: string, kind: OpKind)
    ensures forall prec :: EntryTags(Pending(op, kind, prec)) == multiset{Tag(kind, op)}
  {
  }

  lemma PrefixTags(st: State, op: string)
    requires Ready(st) && Feed(st, Plain(PrefixTok(op))).Ok?
    ensures var s := Feed(st, Plain(PrefixTok(op))).value;
      NoUnionPending(s.stack) && StateTags(s) == StateTags(st) + ItemTags(Plain(PrefixTok(op)))
  {
    hide Sound, StateTags, EntryTags;
    OpenTags(st, Pending(op, Prefix, PREFIX_PREC));
    PendingTags(op, Prefix);
  }

  lemma PostfixTags(st: State, op: string)
    requires Feed(st, Plain(PostfixTok(op))).Ok?
    ensures var s := Feed(st, Plain(PostfixTok(op))).value;
      s.stack == st.stack && StateTags(s) == StateTags(st) + ItemTags(Plain(PostfixTok(op)))
  {
    hide ApplyOp, Floor, TagsAll, StackTags;
    ApplyOpTags(st.out, Floor(st.stack), op, Postfix);
  }

  lemma OpenTokTags(st: State, item: Item)
    requires item.Plain? && item.token.OpenTok? && Ready(st)
    ensures var s := Feed(st, item).value; NoUnionPending(s.stack) && StateTags(s) == StateTags(st) + ItemTags(item)
  {
    hide Sound, StateTags, FuncName;
    var s := Feed(st, item).value;
    var e := s.stack[|st.stack|];
    OpenTags(st, e);
    assert Present(e.frame.args) == [];
  }

  lemma TopTags(st: State, frame: Frame)
    requires |st.stack| > 0 && st.stack[|st.stack| - 1] == Opened(frame)
    ensures StateTags(st)
        == TagsAll(st.out) + StackTags(st.stack[..|st.stack| - 1]) + TagsAll(Present(frame.args)) + FrameTag(frame)
  {
    hide TagsAll, Present, FrameTag;
  }

  lemma SepTags(st: State, row: bool)
    requires Ready(st) && FeedSep(st, row).Ok?
    ensures var s := FeedSep(st, row).value; NoUnionPending(s.stack) && StateTags(s) == StateTags(st)
  {
    hide FeedSep, Unwind, Collect, Present, TagsAll, StateTags, StartsWithin, NoOffsetCall;
    var u, frame, f, rest := SepShape(st, row);
    UnwindTags(st, None);
    UnwindLeaves(st, None);
    TopFrameWithin(u, frame);
    CollectTags(frame, u.out);
    CollectLeaves(frame, u.out);
    var s := FeedSep(st, row).value;
    assert s.stack[..|s.stack| - 1] == u.stack[..|u.stack| - 1];
    TopTags(u, frame);
    var g := s.stack[|s.stack| - 1].frame;
    TopTags(s, g);
    var below := StackTags(u.stack[..|u.stack| - 1]);
    assert StateTags(s) == (TagsAll(rest) + TagsAll(Present(f.args))) + (below + FrameTag(frame));
    assert StateTags(u) == (TagsAll(u.out) + TagsAll(Present(frame.args))) + (below + FrameTag(frame));
  }

  lemma CloseTags(st: State)
    requires Ready(st) && FeedClose(st).Ok?
    ensures var s := FeedClose(st).value; NoUnionPending(s.stack) && StateTags(s) == StateTags(st)
  {
    hide FeedClose, Unwind, Collect, CloseFrame, Present, TagsAll, StartsWithin, NoOffsetCall, FrameTag, IsCellOffset;
    hide StackTags;
    var u, frame, f, rest, node := CloseShape(st);
    UnwindTags(st, None);
    UnwindLeaves(st, None);
    TopFrameWithin(u, frame);
    CollectTags(frame, u.out);
    CollectLeaves(frame, u.out);
    CloseFrameTags(f);
    PushTags(rest, node);
    TopTags(u, frame);
    var below := StackTags(u.stack[..|u.stack| - 1]);
    assert StateTags(FeedClose(st).value) == (TagsAll(rest) + TagsAll(Present(f.args))) + (below + FrameTag(frame));
    assert StateTags(u) == (TagsAll(u.out) + TagsAll(Present(frame.args))) + (below + FrameTag(frame));
  }

  /** One token adds its own operator, if it is one, exactly once. */
  lemma FeedTags(st: State, item: Item)
    requires Ready(st) && Feed(st, item).Ok? && OpensNoOffset(item)
    ensures var s := Feed(st, item).value; NoUnionPending(s.stack) && StateTags(s) == StateTags(st) + ItemTags(item)
  {
    hide FeedInfix, FeedSep, FeedClose, ApplyOp, Sound, Floor, TagsAll, StackTags, StateTags, FuncName, OpensNoOffset;
    hide EntryTags;
    match item
    case Intersect => InfixTags(st, " ");
    case Plain(InfixTok(op)) => InfixTags(st, op);
    case Plain(RangeTok(_)) => OperandTags(st, item);
    case Plain(ConstTok(_, _, _)) => OperandTags(st, item);
    case Plain(LiteralTok(_)) => OperandTags(st, item);
    case Plain(OpenTok(_, _)) => OpenTokTags(st, item);
    case Plain(SepTok(row)) => SepTags(st, row);
    case Plain(CloseTok(_)) => CloseTags(st);
    case Plain(PrefixTok(op)) => PrefixTags(st, op);
    case Plain(PostfixTok(op)) => PostfixTags(st, op);
    case Plain(_) =>
  }

  lemma {:induction false} FeedAllTags(st: State, items: seq<Item>)
    requires Ready(st) && FeedAll(st, items).Ok? && forall i :: 0 <= i < |items| ==> OpensNoOffset(items[i])
    ensures var s := FeedAll(st, items).value; Ready(s) && StateTags(s) == StateTags(st) + ItemsTags(items)
    decreases |items|
  {
    FeedAllLeaves(st, items);
    if items != [] {
      FeedTags(st, items[0]);
      FeedLeaves(st, items[0]);
      assert forall i :: 0 <= i < |items[1..]| ==> items[1..][i] == items[i + 1];
      FeedAllTags(Feed(st, items[0]).value, items[1..]);
    }
  }

  // ---------- whole formulas ----------

  lemma {:induction false} NoFrameNoOffset(out: seq<Ast>, stack: seq<Entry>)
    requires StartsWithin(|out|, stack) && !HasFrame(stack)
    ensures StackLeaves(out, stack) == LeavesAll(out)
    decreases |stack|
  {
    if stack != [] {
      assert stack[|stack| - 1].Pending?;
      NoFrameNoOffset(out, stack[..|stack| - 1]);
    }
  }

  lemma TopIsOpened(stack: seq<Entry>)
    ensures stack != [] && stack[|stack| - 1].Opened? ==> HasFrame(stack)
  {
  }

  lemma {:induction false} UnwoundIsEmpty(st: State)
    requires Unwind(st, None).Ok? && !HasFrame(Unwind(st, None).value.stack)
    ensures Unwind(st, None).value.stack == []
    decreases |st.stack|
  {
    if st.stack != [] && Yields(st.stack[|st.stack| - 1], None) {
      var top, rest := st.stack[|st.stack| - 1], st.stack[..|st.stack| - 1];
      UnwoundIsEmpty(State(ApplyOp(st.out, Floor(rest), top.op, top.kind).value, rest));
    } else {
      TopIsOpened(st.stack);
    }
  }

  lemma ItemsConserve(items: seq<Item>)
    requires ParseItems(items).Ok? && forall i :: 0 <= i < |items| ==> OpensNoOffset(items[i])
    ensures Leaves(ParseItems(items).value) == ItemsLeaves(items)
    ensures Tags(ParseItems(items).value) == ItemsTags(items)
  {
    hide Unwind, FeedAll, ItemsLeaves, ItemsTags, OpensNoOffset, Leaves, Tags;
    var start := State([], []);
    FeedAllLeaves(start, items);
    FeedAllTags(start, items);
    var st := FeedAll(start, items).value;
    UnwindLeaves(st, None);
    UnwindTags(st, None);
    var s := Unwind(st, None).value;
    NoFrameNoOffset(s.out, s.stack);
    UnwoundIsEmpty(st);
    assert s.out == [s.out[0]];
    SingleLeaves(s.out[0]);
    SingleTags(s.out[0]);
    assert StackLeaves([], []) == [];
    assert StateTags(start) == multiset{} && StateTags(s) == TagsAll(s.out) + multiset{};
    assert multiset{} + ItemsTags(items) == ItemsTags(items);
  }

  // ---------- back to the tokens as they came ----------

  /** The operand tokens of a sequence, in order; a lone colon is no operand. */
  function Operands(tokens: seq<Token>): (r: seq<Token>) {
    if tokens == [] then []
    else (if tokens[0] == RangeTok(":") then [] else ItemLeaves(Plain(tokens[0]))) + Operands(tokens[1..])
  }

  lemma {:induction false} NormaliseKeepsOperands(prev: Option<Token>, tokens: seq<Token>)
    requires RangeTok(":") !in tokens
    ensures ItemsLeaves(NormaliseFrom(prev, tokens)) == Operands(tokens)
    decreases |tokens|
  {
    if tokens != [] {
      var rest := tokens[1..];
      if tokens[0] != WhiteTok {
        NormaliseKeepsOperands(Some(tokens[0]), rest);
        var tail := NormaliseFrom(Some(tokens[0]), rest);
        assert ([Plain(tokens[0])] + tail)[1..] == tail;
      } else if PrevEndsValue(prev) && NextStartsValue(NextSolid(rest)) {
        NormaliseKeepsOperands(Some(WhiteTok), rest);
        var tail := NormaliseFrom(Some(WhiteTok), rest);
        assert ([Intersect] + tail)[1..] == tail;
      } else {
        NormaliseKeepsOperands(prev, rest);
      }
    }
  }

  lemma {:induction false} OperandsConcat(a: seq<Token>, b: seq<Token>)
    ensures Operands(a + b) == Operands(a) + Operands(b)
  {
    if a == [] {
      assert a + b == b;
    } else {
      assert (a + b)[1..] == a[1..] + b;
      OperandsConcat(a[1..], b);
    }
  }

  lemma RepairOneKeeps(t: Token)
    ensures Operands(RepairOne(t)) == Operands([t]) && RangeTok(":") !in RepairOne(t)
  {
    hide Upper;
    var one := RepairOne(t);
    assert [t][1..] == [];
    if |one| == 2 {
      assert one[1..] == [one[1]] && one[1..][1..] == [];
    } else {
      assert one[1..] == [];
    }
  }

  lemma {:induction false} RepairKeepsOperands(tokens: seq<Token>)
    ensures Operands(Repair(tokens)) == Operands(tokens) && RangeTok(":") !in Repair(tokens)
  {
    if tokens != [] {
      hide RepairOne, Operands;
      var one, rest := RepairOne(tokens[0]), tokens[1..];
      RepairKeepsOperands(rest);
      RepairOneKeeps(tokens[0]);
      OperandsConcat(one, Repair(rest));
      OperandsConcat([tokens[0]], rest);
      assert tokens == [tokens[0]] + rest;
    }
  }

  ghost predicate NoOffsetCalls(tokens: seq<Token>) {
    forall i :: 0 <= i < |tokens| && tokens[i].OpenTok? && tokens[i].bracket == FuncBracket ==>
      !IsCellOffset(FuncName(tokens[i].value))
  }

  lemma {:induction false} NormaliseOpens(prev: Option<Token>, tokens: seq<Token>)
    requires NoOffsetCalls(tokens)
    ensures forall i :: 0 <= i < |NormaliseFrom(prev, tokens)| ==> OpensNoOffset(NormaliseFrom(prev, tokens)[i])
    decreases |tokens|
  {
    hide IsCellOffset, FuncName;
    if tokens != [] {
      NormaliseOpens(if tokens[0] != WhiteTok then Some(tokens[0]) else Some(WhiteTok), tokens[1..]);
      NormaliseOpens(prev, tokens[1..]);
    }
  }

  lemma IndexIsNoOffset()
    ensures !IsCellOffset(FuncName("INDEX("))
  {
    assert |FuncName("INDEX(")| <= 6;
  }

  lemma {:induction false} RepairOpens(tokens: seq<Token>)
    requires NoOffsetCalls(tokens)
    ensures NoOffsetCalls(Repair(tokens))
  {
    if tokens != [] {
      RepairOpens(tokens[1..]);
      IndexIsNoOffset();
      hide IsCellOffset, FuncName, Upper;
      var one, rest := RepairOne(tokens[0]), Repair(tokens[1..]);
      assert NoOffsetCalls(one);
      var all: seq<Token> := one + rest;
      forall i: nat | i < |all| ensures all[i] == if i < |one| then one[i] else rest[i - |one|] {
      }
    }
  }

  /** Conservation, for every accepted token sequence without a cell:OFFSET call: the leaves are the
      operand tokens in order, and every operator token, the white space that stands for intersection
      included, is exactly one node. */
  lemma ParseConserves(tokens: seq<Token>)
    requires Parse(tokens).Ok? && NoOffsetCalls(tokens)
    ensures Leaves(Parse(tokens).value) == Operands(tokens)
    ensures Tags(Parse(tokens).value) == ItemsTags(Normalise(Repair(tokens)))
  {
    hide ParseItems, OpensNoOffset, Leaves, Tags, NoOffsetCalls, ItemsTags, Repair, NormaliseFrom;
    RepairOpens(tokens);
    RepairKeepsOperands(tokens);
    NormaliseOpens(None, Repair(tokens));
    NormaliseKeepsOperands(None, Repair(tokens));
    ItemsConserve(Normalise(Repair(tokens)));
  }
}
