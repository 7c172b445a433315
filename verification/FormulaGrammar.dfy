/** The formula grammar, stratified by the precedence table, and the proof that the parser reads
    every sentence of it, however it is padded with white space, as the tree its derivation spells. */
module FormulaGrammar {
  import opened Options
  import opened FormulaTokens
  import opened FormulaParser

  /** A derivation. A bracketed list has one slot more than it has separators; an absent slot is a
      missing argument, and a break marks the separators that end a row. */
  datatype Phrase =
    | Leaf(token: Token)
    | Bracketed(bracket: Bracket, value: string, slots: seq<Option<Phrase>>, breaks: seq<bool>)
    | Postfixed(inner: Phrase, op: string)
    | Prefixed(op: string, inner: Phrase)
    | Binary(op: string, left: Phrase, right: Phrase)

  const PRIMARY := 9

  /** The level of the grammar a phrase belongs to: its operator's precedence, or primary. */
  function Level(p: Phrase): (r: nat) {
    match p
    case Binary(op, _, _) => if InfixPrec(op).Some? then InfixPrec(op).value else 0
    case Prefixed(_, _) => PREFIX_PREC
    case _ => PRIMARY
  }

  /** What may stand left and right of an infix operator: the right-associative one repeats on its
      right, the others on their left. */
  predicate OperandsFit(op: string, left: nat, right: nat) {
    InfixPrec(op).Some? &&
    var p := InfixPrec(op).value;
    if RightAssoc(op) then left > p && right >= p else left >= p && right > p
  }

  predicate CallName(value: string) {
    !IsCellOffset(FuncName(value)) && Upper(value) != ":INDEX("
  }

  predicate ListFits(bracket: Bracket, value: string, slots: seq<Option<Phrase>>) {
    match bracket
    case FuncBracket => CallName(value) && slots != [None]
    case ParenBracket => |slots| > 0 && slots[0].Some?
    case ArrayBracket => slots == [] || slots[0].Some?
  }

  predicate Derivation(p: Phrase)
    decreases p
  {
    match p
    case Leaf(token) => (token.RangeTok? && token != RangeTok(":")) || token.ConstTok?
    case Bracketed(bracket, value, slots, breaks) =>
      && ListFits(bracket, value, slots) && |breaks| == (if slots == [] then 0 else |slots| - 1)
      && forall i :: 0 <= i < |slots| && slots[i].Some? ==> Derivation(slots[i].value)
    case Postfixed(inner, _) => Level(inner) == PRIMARY && Derivation(inner)
    case Prefixed(_, inner) => Level(inner) >= PREFIX_PREC && Derivation(inner)
    case Binary(op, left, right) => OperandsFit(op, Level(left), Level(right)) && Derivation(left) && Derivation(right)
  }

  // ---------- what a derivation spells and what it means ----------

  function InfixItem(op: string): (r: Item) {
    if op == " " then Intersect else Plain(InfixTok(op))
  }

  function ListItems(slots: seq<Option<Phrase>>, breaks: seq<bool>): (r: seq<Item>)
    decreases slots, 2
  {
    if slots == [] then []
    else if |slots| == 1 || breaks == [] then SlotItems(slots[0])
    else SlotItems(slots[0]) + [Plain(SepTok(breaks[0]))] + ListItems(slots[1..], breaks[1..])
  }

  function Items(p: Phrase): (r: seq<Item>)
    decreases p, 0
  {
    match p
    case Leaf(token) => [Plain(token)]
    case Bracketed(bracket, value, slots, breaks) =>
      [Plain(OpenTok(bracket, value))] + ListItems(slots, breaks) + [Plain(CloseTok(bracket))]
    case Postfixed(inner, op) => Items(inner) + [Plain(PostfixTok(op))]
    case Prefixed(op, inner) => [Plain(PrefixTok(op))] + Items(inner)
    case Binary(op, left, right) => Items(left) + [InfixItem(op)] + Items(right)
  }

  function SlotItems(slot: Option<Phrase>): (r: seq<Item>)
    decreases slot, 1
  {
    if slot.Some? then Items(slot.value) else []
  }

  function SlotTrees(slots: seq<Option<Phrase>>): (r: seq<Ast>)
    ensures |r| == |slots|
    decreases slots, 2
  {
    if slots == [] then [] else [SlotTree(slots[0])] + SlotTrees(slots[1..])
  }

  function Count(breaks: seq<bool>): (r: nat) {
    if breaks == [] then 0 else (if breaks[0] then 1 else 0) + Count(breaks[1..])
  }

  function Tree(p: Phrase): (r: Ast)
    decreases p, 0
  {
    match p
    case Leaf(token) => if token.RangeTok? then Ref(token.value) else Const(token)
    case Bracketed(FuncBracket, value, slots, _) => Op(Func, FuncName(value), SlotTrees(slots), 0)
    case Bracketed(ParenBracket, _, slots, _) =>
      if |slots| == 1 && slots[0].Some? then Tree(slots[0].value) else Op(Union, ",", SlotTrees(slots), 0)
    case Bracketed(ArrayBracket, _, slots, breaks) => Op(Array, "{}", SlotTrees(slots), 1 + Count(breaks))
    case Postfixed(inner, op) => Op(Postfix, op, [Tree(inner)], 0)
    case Prefixed(op, inner) => Op(Prefix, op, [Tree(inner)], 0)
    case Binary(op, left, right) => Op(Infix, op, [Tree(left), Tree(right)], 0)
  }

  function SlotTree(slot: Option<Phrase>): (r: Ast)
    decreases slot, 1
  {
    if slot.Some? then Tree(slot.value) else Missing
  }

  // ---------- the parser in the middle of a sentence ----------

  /** Operands and operators a phrase leaves on the stacks until something forces them. */
  function Outs(p: Phrase): (r: seq<Ast>) {
    match p
    case Binary(_, left, right) => [Tree(left)] + Outs(right)
    case Prefixed(_, inner) => Outs(inner)
    case _ => [Tree(p)]
  }

  function Pend(p: Phrase): (r: seq<Entry>) {
    match p
    case Binary(op, _, right) => [Pending(op, Infix, if InfixPrec(op).Some? then InfixPrec(op).value else 0)]
      + Pend(right)
    case Prefixed(op, inner) => [Pending(op, Prefix, PREFIX_PREC)] + Pend(inner)
    case _ => []
  }

  /** No infix operator of a phrase at this level disturbs what is already pending. */
  ghost predicate Blocks(stack: seq<Entry>, level: nat) {
    stack == [] || stack[|stack| - 1].Opened? ||
    var top := stack[|stack| - 1];
    top.prec < level || (top.prec == level && (RightAssoc(top.op) || level == PREFIX_PREC))
  }

  lemma {:induction false} FeedAllConcat(st: State, a: seq<Item>, b: seq<Item>)
    requires FeedAll(st, a).Ok?
    ensures FeedAll(st, a + b) == FeedAll(FeedAll(st, a).value, b)
    decreases |a|
  {
    hide Feed;
    if a == [] {
      assert a + b == b;
    } else {
      assert (a + b)[1..] == a[1..] + b;
      FeedAllConcat(Feed(st, a[0]).value, a[1..], b);
    }
  }

  lemma FeedOne(st: State, item: Item)
    ensures FeedAll(st, [item]) == Feed(st, item)
  {
    hide Feed;
    assert [item][1..] == [];
  }

  /** What a phrase leaves pending binds at least as tightly as the phrase itself. */
  lemma {:induction false} PendPrec(p: Phrase)
    requires Derivation(p)
    ensures forall i :: 0 <= i < |Pend(p)| ==> Pend(p)[i].Pending? && Pend(p)[i].prec >= Level(p)
    ensures forall i :: 0 <= i < |Pend(p)| ==>
        Pend(p)[i].prec == PREFIX_PREC || InfixPrec(Pend(p)[i].op) == Some(Pend(p)[i].prec)
  {
    hide InfixPrec;
    match p
    case Binary(op, left, right) => PendPrec(right);
    case Prefixed(op, inner) => PendPrec(inner);
    case _ =>
  }

  ghost predicate AllYield(entries: seq<Entry>, minPrec: Option<nat>) {
    forall i :: 0 <= i < |entries| ==> Yields(entries[i], minPrec)
  }

  lemma FloorPending(stack: seq<Entry>, e: Entry)
    requires e.Pending?
    ensures Floor(stack + [e]) == Floor(stack)
  {
    assert (stack + [e])[..|stack|] == stack;
  }

  /** One yielding operator is applied to the operands right above the floor. */
  lemma UnwindTop(out: seq<Ast>, stack: seq<Entry>, e: Entry, args: seq<Ast>, minPrec: Option<nat>)
    requires e.Pending? && Yields(e, minPrec) && |args| == Need(e.kind) && Floor(stack) <= |out|
    ensures Unwind(State(out + args, stack + [e]), minPrec)
        == Unwind(State(out + [Op(e.kind, e.op, args, 0)], stack), minPrec)
  {
    hide Floor, Yields;
    assert (stack + [e])[..|stack|] == stack;
    assert (out + args)[..|out|] == out && (out + args)[|out|..] == args;
  }

  lemma Regroup<T>(a: seq<T>, b: seq<T>, c: seq<T>)
    ensures a + b + c == a + (b + c)
  {
  }

  lemma YieldTail(all: seq<Entry>, rest: seq<Entry>, minPrec: Option<nat>)
    requires AllYield(all, minPrec) && all != [] && all[1..] == rest
    ensures Yields(all[0], minPrec) && AllYield(rest, minPrec)
  {
    hide Yields;
  }

  /** Forcing everything a phrase left pending leaves its tree. */
  lemma {:induction false} UnwindPhrase(st: State, p: Phrase, minPrec: Option<nat>)
    requires Derivation(p) && Floor(st.stack) <= |st.out| && AllYield(Pend(p), minPrec)
    ensures Unwind(State(st.out + Outs(p), st.stack + Pend(p)), minPrec)
        == Unwind(State(st.out + [Tree(p)], st.stack), minPrec)
    decreases p
  {
    hide Floor, Unwind, Yields, InfixPrec, CallName, ListFits;
    match p
    case Binary(op, left, right) =>
      var e := Pend(p)[0];
      FloorPending(st.stack, e);
      var mid := State(st.out + [Tree(left)], st.stack + [e]);
      YieldTail(Pend(p), Pend(right), minPrec);
      UnwindPhrase(mid, right, minPrec);
      Regroup(st.out, [Tree(left)], Outs(right));
      Regroup(st.stack, [e], Pend(right));
      UnwindTop(st.out, st.stack, e, [Tree(left), Tree(right)], minPrec);
      assert mid.out + [Tree(right)] == st.out + [Tree(left), Tree(right)];
    case Prefixed(op, inner) =>
      var e := Pend(p)[0];
      FloorPending(st.stack, e);
      var mid := State(st.out, st.stack + [e]);
      YieldTail(Pend(p), Pend(inner), minPrec);
      UnwindPhrase(mid, inner, minPrec);
      Regroup(st.stack, [e], Pend(inner));
      UnwindTop(st.out, st.stack, e, [Tree(inner)], minPrec);
    case _ =>
      assert st.stack + [] == st.stack;
  }

  lemma UnwindStops(st: State, minPrec: Option<nat>)
    requires st.stack == [] || !Yields(st.stack[|st.stack| - 1], minPrec)
    ensures Unwind(st, minPrec) == Ok(st)
  {
  }

  /** The right-associative operator shares its precedence with no other, prefixes included. */
  lemma CaretAlone(op: string, other: string)
    ensures InfixPrec(op).Some? && RightAssoc(other) && InfixPrec(op) == InfixPrec(other) ==> RightAssoc(op)
    ensures InfixPrec(op) != Some(PREFIX_PREC)
  {
  }

  /** Reading an operator after its left operand reduces exactly that operand. */
  lemma FeedOperator(st: State, left: Phrase, op: string)
    requires Derivation(left) && Floor(st.stack) <= |st.out| && InfixPrec(op).Some?
    requires Blocks(st.stack, InfixPrec(op).value)
    requires if RightAssoc(op) then Level(left) > InfixPrec(op).value else Level(left) >= InfixPrec(op).value
    ensures FeedInfix(State(st.out + Outs(left), st.stack + Pend(left)), op)
      == Ok(State(st.out + [Tree(left)], st.stack + [Pending(op, Infix, InfixPrec(op).value)]))
  {
    hide Unwind, Floor, Derivation, Outs, Tree;
    var prec := InfixPrec(op);
    PendPrec(left);
    forall i | 0 <= i < |Pend(left)| ensures Yields(Pend(left)[i], prec) {
      CaretAlone(op, Pend(left)[i].op);
    }
    UnwindPhrase(st, left, prec);
    UnwindStops(State(st.out + [Tree(left)], st.stack), prec);
  }

  // ---------- bracketed lists ----------

  function ArgOf(frame: Frame, slot: Option<Phrase>): (r: Option<Ast>) {
    if slot.Some? then Some(Tree(slot.value))
    else if frame.seenSep || frame.bracket == FuncBracket then Some(Missing) else None
  }

  function AfterSep(frame: Frame, slot: Option<Phrase>, row: bool): (r: Frame) {
    frame.(args := frame.args + [ArgOf(frame, slot)], seenSep := true,
           rows := if row && frame.bracket == ArrayBracket then frame.rows + [|frame.args| + 1] else frame.rows)
  }

  /** The frame when its closing bracket has been read. */
  function FillFrame(frame: Frame, slots: seq<Option<Phrase>>, breaks: seq<bool>): (r: Frame)
    requires slots != []
    decreases |slots|
  {
    if |slots| == 1 || breaks == [] then frame.(args := frame.args + [ArgOf(frame, slots[0])])
    else FillFrame(AfterSep(frame, slots[0], breaks[0]), slots[1..], breaks[1..])
  }

  ghost function Closed(frame: Frame, out: seq<Ast>, stack: seq<Entry>): (r: Result<State>) {
    match CloseFrame(frame)
    case Ok(node) => Ok(State(out + [node], stack))
    case Err(e) => Err(e)
  }

  function SlotOuts(slot: Option<Phrase>): (r: seq<Ast>) { if slot.Some? then Outs(slot.value) else [] }

  function SlotPend(slot: Option<Phrase>): (r: seq<Entry>) { if slot.Some? then Pend(slot.value) else [] }

  function SlotDone(slot: Option<Phrase>): (r: seq<Ast>) { if slot.Some? then [Tree(slot.value)] else [] }

  lemma UnwindSlot(out: seq<Ast>, stack: seq<Entry>, frame: Frame, slot: Option<Phrase>)
    requires |out| == frame.start && (slot.Some? ==> Derivation(slot.value))
    ensures Unwind(State(out + SlotOuts(slot), stack + [Opened(frame)] + SlotPend(slot)), None)
      == Ok(State(out + SlotDone(slot), stack + [Opened(frame)]))
  {
    hide Derivation, Outs, Pend, Tree;
    var st := State(out, stack + [Opened(frame)]);
    if slot.Some? {
      PendPrec(slot.value);
      UnwindPhrase(st, slot.value, None);
    } else {
      assert out + [] == out && st.stack + [] == st.stack;
    }
  }

  lemma CollectSlot(out: seq<Ast>, frame: Frame, slot: Option<Phrase>)
    requires |out| == frame.start
    ensures Collect(frame, out + SlotDone(slot)) == Ok((frame.(args := frame.args + [ArgOf(frame, slot)]), out))
  {
    hide Tree;
    assert (out + SlotDone(slot))[..|out|] == out;
    assert slot.None? ==> out + SlotDone(slot) == out;
  }

  /** A separator, once the pending operators are applied and the argument is taken. */
  lemma SepShape(st: State, stack: seq<Entry>, frame: Frame, done: seq<Ast>, row: bool, collected: Frame, out: seq<Ast>)
    requires HasFrame(st.stack) && Unwind(st, None) == Ok(State(done, stack + [Opened(frame)]))
    requires Collect(frame, done) == Ok((collected, out)) && collected.bracket == frame.bracket
    ensures FeedSep(st, row) == Ok(State(out, stack + [Opened(collected.(seenSep := true, start := |out|,
      rows := if row && frame.bracket == ArrayBracket then collected.rows + [|collected.args|] else collected.rows))]))
  {
    hide Unwind, Collect, HasFrame;
    assert (stack + [Opened(frame)])[..|stack|] == stack;
  }

  lemma FeedSepAfter(out: seq<Ast>, stack: seq<Entry>, frame: Frame, slot: Option<Phrase>, row: bool)
    requires |out| == frame.start && (slot.Some? ==> Derivation(slot.value))
    ensures Feed(State(out + SlotOuts(slot), stack + [Opened(frame)] + SlotPend(slot)), Plain(SepTok(row)))
      == Ok(State(out, stack + [Opened(AfterSep(frame, slot, row))]))
  {
    hide Derivation, Unwind, Collect, ArgOf, SlotOuts, SlotPend, SlotDone;
    UnwindSlot(out, stack, frame, slot);
    CollectSlot(out, frame, slot);
    var all := stack + [Opened(frame)] + SlotPend(slot);
    assert all[|stack|].Opened?;
    SepShape(State(out + SlotOuts(slot), all), stack, frame, out + SlotDone(slot), row,
      frame.(args := frame.args + [ArgOf(frame, slot)]), out);
  }

  lemma FeedCloseAfter(out: seq<Ast>, stack: seq<Entry>, frame: Frame, slot: Option<Phrase>, bracket: Bracket)
    requires |out| == frame.start && (slot.Some? ==> Derivation(slot.value))
    ensures Feed(State(out + SlotOuts(slot), stack + [Opened(frame)] + SlotPend(slot)), Plain(CloseTok(bracket)))
      == Closed(frame.(args := frame.args + [ArgOf(frame, slot)]), out, stack)
  {
    hide Derivation, Unwind, Collect, ArgOf, SlotOuts, SlotPend, CloseFrame;
    UnwindSlot(out, stack, frame, slot);
    CollectSlot(out, frame, slot);
    assert (stack + [Opened(frame)])[..|stack|] == stack;
  }

  ghost predicate SlotsDerive(slots: seq<Option<Phrase>>) {
    forall i :: 0 <= i < |slots| && slots[i].Some? ==> Derivation(slots[i].value)
  }

  lemma FeedLeaf(st: State, token: Token)
    requires Derivation(Leaf(token))
    ensures FeedAll(st, Items(Leaf(token))) == Ok(State(st.out + Outs(Leaf(token)), st.stack + Pend(Leaf(token))))
  {
    hide FeedAll;
    FeedOne(st, Plain(token));
    assert st.stack + [] == st.stack;
  }

  lemma BracketedParts(p: Phrase)
    requires p.Bracketed?
    ensures Items(p) == [Plain(OpenTok(p.bracket, p.value))]
        + (ListItems(p.slots, p.breaks) + [Plain(CloseTok(p.bracket))])
    ensures Outs(p) == [Tree(p)] && Pend(p) == []
    ensures p == Bracketed(p.bracket, p.value, p.slots, p.breaks)
  {
    hide Tree;
  }

  lemma OpenFeeds(st: State, bracket: Bracket, value: string)
    ensures Feed(st, Plain(OpenTok(bracket, value)))
      == Ok(State(st.out, st.stack + [Opened(Frame(bracket, if bracket == FuncBracket then FuncName(value)
        else "", [], |st.out|, [], false))]))
  {
  }

  lemma ListOfNone(p: Phrase)
    requires p.Bracketed? && Derivation(p)
    ensures var slots := if p.slots == [] then [None] else p.slots;
      && ListItems(slots, p.breaks) == ListItems(p.slots, p.breaks) && |p.breaks| == |slots| - 1 && SlotsDerive(slots)
      && ListFits(p.bracket, p.value, p.slots) && |p.breaks| == (if p.slots == [] then 0 else |p.slots| - 1)
        && SlotsDerive(p.slots)
  {
  }

  lemma FeedEmptyList(out: seq<Ast>, stack: seq<Entry>, frame: Frame, breaks: seq<bool>, bracket: Bracket)
    requires |out| == frame.start && breaks == []
    ensures FeedAll(State(out, stack + [Opened(frame)]), ListItems([None], breaks) + [Plain(CloseTok(bracket))])
      == Closed(FillFrame(frame, [None], breaks), out, stack)
  {
    hide Feed, FeedAll, Closed, ArgOf;
    var st := State(out, stack + [Opened(frame)]);
    FeedCloseAfter(out, stack, frame, None, bracket);
    assert out + [] == out && st.stack + [] == st.stack;
    FeedOne(st, Plain(CloseTok(bracket)));
    assert ListItems([None], breaks) + [Plain(CloseTok(bracket))] == [Plain(CloseTok(bracket))];
  }

  lemma EmptyFrame(frame: Frame, breaks: seq<bool>)
    requires frame.args == [] && !frame.seenSep
    ensures var f := FillFrame(frame, [None], breaks);
      f == frame.(args := f.args) && Present(f.args) == if frame.bracket == FuncBracket then [Missing] else []
  {
    var f := FillFrame(frame, [None], breaks);
    assert f.args == [ArgOf(frame, None)];
    assert f.args[..0] == [];
  }

  lemma {:induction false} TreeIsPresent(p: Phrase)
    requires Derivation(p)
    ensures Tree(p) != Missing
    decreases p
  {
    if p.Bracketed? && p.bracket == ParenBracket && |p.slots| == 1 && p.slots[0].Some? {
      TreeIsPresent(p.slots[0].value);
    }
  }

  lemma SingleSlot(slots: seq<Option<Phrase>>)
    requires |slots| == 1 && slots[0].Some? && Derivation(slots[0].value)
    ensures SlotTrees(slots) == [Tree(slots[0].value)] && Tree(slots[0].value) != Missing
  {
    assert slots[1..] == [];
    TreeIsPresent(slots[0].value);
  }

  /** The tree of a bracketed list, without recursion. */
  lemma BracketTreeIs(bracket: Bracket, value: string, slots: seq<Option<Phrase>>, breaks: seq<bool>)
    ensures var t := Tree(Bracketed(bracket, value, slots, breaks));
      match bracket
      case FuncBracket => t == Op(Func, FuncName(value), SlotTrees(slots), 0)
      case ParenBracket => t == if |slots| == 1 && slots[0].Some? then Tree(slots[0].value)
        else Op(Union, ",", SlotTrees(slots), 0)
      case ArrayBracket => t == Op(Array, "{}", SlotTrees(slots), 1 + Count(breaks))
  {
    hide FuncName;
  }

  lemma NoSpan(name: string)
    ensures !IsCellOffset(name) ==> forall args :: StaticRange(name, args).None?
  {
  }

  lemma CountTail(breaks: seq<bool>)
    requires breaks != []
    ensures Count(breaks) == (if breaks[0] then 1 else 0) + Count(breaks[1..])
  {
  }

  lemma NoBreaks(breaks: seq<bool>)
    ensures breaks == [] ==> Count(breaks) == 0
  {
  }

  lemma AfterSepIs(frame: Frame, slot: Option<Phrase>, row: bool)
    ensures var next := AfterSep(frame, slot, row);
      && next.bracket == frame.bracket && next.name == frame.name && next.seenSep
      && next.args == frame.args + [ArgOf(frame, slot)]
      && |next.rows| == |frame.rows| + if row && frame.bracket == ArrayBracket then 1 else 0
  {
    hide ArgOf;
  }

  lemma {:induction false} FilledShape(frame: Frame, slots: seq<Option<Phrase>>, breaks: seq<bool>)
    requires slots != [] && |breaks| == |slots| - 1
    ensures var f := FillFrame(frame, slots, breaks);
      && f.bracket == frame.bracket && f.name == frame.name && f.seenSep == (frame.seenSep || |slots| > 1)
      && |f.rows| == |frame.rows| + (if frame.bracket == ArrayBracket then Count(breaks) else 0)
    decreases |slots|
  {
    hide ArgOf, Count, AfterSep;
    if |slots| == 1 {
      NoBreaks(breaks);
    } else {
      AfterSepIs(frame, slots[0], breaks[0]);
      FilledShape(AfterSep(frame, slots[0], breaks[0]), slots[1..], breaks[1..]);
      CountTail(breaks);
    }
  }

  lemma SlotIsArg(frame: Frame, slot: Option<Phrase>)
    requires frame.seenSep || frame.bracket == FuncBracket || slot.Some?
    ensures ArgOf(frame, slot) == Some(SlotTree(slot))
  {
  }

  lemma PresentAppend(args: seq<Option<Ast>>, t: Ast)
    ensures Present(args + [Some(t)]) == Present(args) + [t]
  {
    assert (args + [Some(t)])[..|args|] == args;
  }

  lemma {:induction false} FilledArgs(frame: Frame, slots: seq<Option<Phrase>>, breaks: seq<bool>)
    requires slots != [] && |breaks| == |slots| - 1
    requires frame.seenSep || frame.bracket == FuncBracket || slots[0].Some?
    ensures Present(FillFrame(frame, slots, breaks).args) == Present(frame.args) + SlotTrees(slots)
    decreases |slots|
  {
    hide SlotTree, Present, ArgOf, AfterSep;
    var tree := SlotTree(slots[0]);
    SlotIsArg(frame, slots[0]);
    PresentAppend(frame.args, tree);
    if |slots| == 1 {
      assert slots[1..] == [];
    } else {
      var next, rest := AfterSep(frame, slots[0], breaks[0]), SlotTrees(slots[1..]);
      AfterSepIs(frame, slots[0], breaks[0]);
      FilledArgs(next, slots[1..], breaks[1..]);
      assert SlotTrees(slots) == [tree] + rest;
      hide SlotTrees;
      assert Present(frame.args) + ([tree] + rest) == (Present(frame.args) + [tree]) + rest;
    }
  }

  lemma FilledFrame(frame: Frame, slots: seq<Option<Phrase>>, breaks: seq<bool>)
    requires slots != [] && |breaks| == |slots| - 1
    requires frame.seenSep || frame.bracket == FuncBracket || slots[0].Some?
    ensures var f := FillFrame(frame, slots, breaks);
      && f.bracket == frame.bracket && f.name == frame.name && f.seenSep == (frame.seenSep || |slots| > 1)
      && Present(f.args) == Present(frame.args) + SlotTrees(slots)
      && |f.rows| == |frame.rows| + (if frame.bracket == ArrayBracket then Count(breaks) else 0)
  {
    hide *;
    FilledShape(frame, slots, breaks);
    FilledArgs(frame, slots, breaks);
  }

  lemma BracketTree(bracket: Bracket, value: string, slots: seq<Option<Phrase>>, breaks: seq<bool>, start: nat)
    requires ListFits(bracket, value, slots) && |breaks| == (if slots == [] then 0 else |slots| - 1)
    requires SlotsDerive(slots)
    ensures var frame := Frame(bracket, if bracket == FuncBracket then FuncName(value) else "", [], start, [], false);
      var f := FillFrame(frame, if slots == [] then [None] else slots, breaks);
      CloseFrame(f) == Ok(Tree(Bracketed(bracket, value, slots, breaks)))
  {
    hide StaticRange, IsCellOffset, FuncName, Upper, FillFrame, Tree;
    var frame := Frame(bracket, if bracket == FuncBracket then FuncName(value) else "", [], start, [], false);
    NoSpan(frame.name);
    if slots == [] {
      EmptyFrame(frame, breaks);
    } else {
      FilledFrame(frame, slots, breaks);
      assert [] + SlotTrees(slots) == SlotTrees(slots);
      if |slots| == 1 && slots[0].Some? { SingleSlot(slots); }
    }
    BracketTreeIs(bracket, value, slots, breaks);
  }

  lemma FeedBracketed(st: State, p: Phrase)
    requires p.Bracketed? && Derivation(p)
    ensures FeedAll(st, Items(p)) == Ok(State(st.out + Outs(p), st.stack + Pend(p)))
    decreases p, 0
  {
    var slots := if p.slots == [] then [None] else p.slots;
    var open, close := Plain(OpenTok(p.bracket, p.value)), Plain(CloseTok(p.bracket));
    var frame := Frame(p.bracket, if p.bracket == FuncBracket then FuncName(p.value) else "", [], |st.out|, [], false);
    OpenFeeds(st, p.bracket, p.value);
    ListOfNone(p);
    hide Derivation, Feed, FeedAll, ListItems, FuncName, CloseFrame, FillFrame, ListFits, SlotsDerive, Tree;
    BracketedParts(p);
    FeedOne(st, open);
    var rest := ListItems(slots, p.breaks) + [close];
    assert Items(p) == [open] + rest;
    FeedAllConcat(st, [open], rest);
    if p.slots == [] {
      FeedEmptyList(st.out, st.stack, frame, p.breaks, p.bracket);
    } else {
      FeedSlots(st.out, st.stack, frame, p.slots, p.breaks, p.bracket);
    }
    BracketTree(p.bracket, p.value, p.slots, p.breaks, |st.out|);
    assert st.stack + [] == st.stack;
  }

  lemma PostfixedParts(p: Phrase)
    requires p.Postfixed? && Derivation(p)
    ensures Derivation(p.inner) && Level(p.inner) == Level(p) == PRIMARY
    ensures Items(p) == Items(p.inner) + [Plain(PostfixTok(p.op))] && Outs(p) == [Op(Postfix, p.op, [Tree(p.inner)], 0)]
    ensures Pend(p) == []
  {
  }

  lemma ApplyPostfix(st: State, op: string, t: Ast)
    requires Floor(st.stack) <= |st.out|
    ensures Feed(State(st.out + [t], st.stack), Plain(PostfixTok(op)))
        == Ok(State(st.out + [Op(Postfix, op, [t], 0)], st.stack))
  {
    hide Floor;
    var out := st.out + [t];
    assert out[..|st.out|] == st.out && out[|st.out|..] == [t];
  }

  lemma PrimaryLeaves(p: Phrase)
    requires Level(p) == PRIMARY
    ensures Outs(p) == [Tree(p)] && Pend(p) == []
  {
  }

  lemma FeedPostfixed(st: State, p: Phrase)
    requires p.Postfixed? && Derivation(p) && Blocks(st.stack, Level(p)) && Floor(st.stack) <= |st.out|
    ensures FeedAll(st, Items(p)) == Ok(State(st.out + Outs(p), st.stack + Pend(p)))
    decreases p, 0
  {
    PostfixedParts(p);
    hide FeedAll, Floor, Blocks, Feed, Derivation, Items, Outs, Pend;
    FeedPhrase(st, p.inner);
    PrimaryLeaves(p.inner);
    assert st.stack + [] == st.stack;
    var mid := State(st.out + [Tree(p.inner)], st.stack);
    FeedAllConcat(st, Items(p.inner), [Plain(PostfixTok(p.op))]);
    FeedOne(mid, Plain(PostfixTok(p.op)));
    ApplyPostfix(st, p.op, Tree(p.inner));
  }

  lemma FeedPrefixed(st: State, p: Phrase)
    requires p.Prefixed? && Derivation(p) && Floor(st.stack) <= |st.out|
    ensures FeedAll(st, Items(p)) == Ok(State(st.out + Outs(p), st.stack + Pend(p)))
    decreases p, 0
  {
    hide FeedAll, Floor;
    var e := Pending(p.op, Prefix, PREFIX_PREC);
    var mid := State(st.out, st.stack + [e]);
    FeedOne(st, Plain(PrefixTok(p.op)));
    FeedAllConcat(st, [Plain(PrefixTok(p.op))], Items(p.inner));
    FloorPending(st.stack, e);
    FeedPhrase(mid, p.inner);
    assert mid.stack + Pend(p.inner) == st.stack + Pend(p);
  }

  lemma BlocksOperands(stack: seq<Entry>, op: string, left: nat, right: nat)
    requires OperandsFit(op, left, right) && Blocks(stack, InfixPrec(op).value)
    ensures Blocks(stack, left) && Blocks(stack + [Pending(op, Infix, InfixPrec(op).value)], right)
    ensures if RightAssoc(op) then left > InfixPrec(op).value else left >= InfixPrec(op).value
  {
    hide InfixPrec;
    CaretAlone(op, op);
  }

  lemma BinaryParts(p: Phrase)
    requires p.Binary? && OperandsFit(p.op, Level(p.left), Level(p.right))
    ensures InfixPrec(p.op).Some? && Level(p) == InfixPrec(p.op).value
    ensures Items(p) == Items(p.left) + ([InfixItem(p.op)] + Items(p.right))
    ensures Outs(p) == [Tree(p.left)] + Outs(p.right)
    ensures Pend(p) == [Pending(p.op, Infix, InfixPrec(p.op).value)] + Pend(p.right)
  {
    hide InfixPrec, Tree;
  }

  lemma OperatorFeeds(st: State, op: string)
    ensures Feed(st, InfixItem(op)) == FeedInfix(st, op)
  {
  }

  lemma FeedBinary(st: State, p: Phrase)
    requires p.Binary? && Derivation(p) && Blocks(st.stack, Level(p)) && Floor(st.stack) <= |st.out|
    ensures FeedAll(st, Items(p)) == Ok(State(st.out + Outs(p), st.stack + Pend(p)))
    decreases p, 0
  {
    hide FeedAll, Floor, InfixPrec, Feed, FeedInfix, Tree, Items, Outs, Pend, Blocks, OperandsFit, InfixItem;
    BinaryParts(p);
    BlocksOperands(st.stack, p.op, Level(p.left), Level(p.right));
    FeedPhrase(st, p.left);
    var read := State(st.out + Outs(p.left), st.stack + Pend(p.left));
    var e := Pending(p.op, Infix, InfixPrec(p.op).value);
    var mid := State(st.out + [Tree(p.left)], st.stack + [e]);
    OperatorFeeds(read, p.op);
    FeedOperator(st, p.left, p.op);
    FeedOne(read, InfixItem(p.op));
    FloorPending(st.stack, e);
    FeedPhrase(mid, p.right);
    FeedAllConcat(st, Items(p.left), [InfixItem(p.op)] + Items(p.right));
    FeedAllConcat(read, [InfixItem(p.op)], Items(p.right));
    Regroup(st.out, [Tree(p.left)], Outs(p.right));
    Regroup(st.stack, [e], Pend(p.right));
  }

  /** In the middle of any sentence, a phrase that fits leaves exactly its operands and operators. */
  lemma {:induction false} FeedPhrase(st: State, p: Phrase)
    requires Derivation(p) && Blocks(st.stack, Level(p)) && Floor(st.stack) <= |st.out|
    ensures FeedAll(st, Items(p)) == Ok(State(st.out + Outs(p), st.stack + Pend(p)))
    decreases p, 1
  {
    match p
    case Leaf(token) => FeedLeaf(st, token);
    case Bracketed(_, _, _, _) => FeedBracketed(st, p);
    case Postfixed(_, _) => FeedPostfixed(st, p);
    case Prefixed(_, _) => FeedPrefixed(st, p);
    case Binary(_, _, _) => FeedBinary(st, p);
  }

  lemma FeedSlot(out: seq<Ast>, stack: seq<Entry>, frame: Frame, slot: Option<Phrase>)
    requires |out| == frame.start && (slot.Some? ==> Derivation(slot.value))
    ensures FeedAll(State(out, stack + [Opened(frame)]), SlotItems(slot))
      == Ok(State(out + SlotOuts(slot), stack + [Opened(frame)] + SlotPend(slot)))
    decreases slot, 1
  {
    var st := State(out, stack + [Opened(frame)]);
    if slot.Some? {
      hide Derivation, Outs, Pend, Items, FeedAll;
      FeedPhrase(st, slot.value);
    } else {
      assert st.out + [] == st.out && st.stack + [] == st.stack;
    }
  }

  /** From an opened frame through its last slot and its closing bracket. */
  lemma {:induction false} FeedSlots(out: seq<Ast>, stack: seq<Entry>, frame: Frame, slots: seq<Option<Phrase>>,
                                     breaks: seq<bool>, bracket: Bracket)
    requires |out| == frame.start && slots != [] && |breaks| == |slots| - 1 && SlotsDerive(slots)
    ensures FeedAll(State(out, stack + [Opened(frame)]), ListItems(slots, breaks) + [Plain(CloseTok(bracket))])
      == Closed(FillFrame(frame, slots, breaks), out, stack)
    decreases slots, 2
  {
    hide Derivation, Feed, FeedAll, SlotItems, SlotOuts, SlotPend, ArgOf, Closed;
    var st := State(out, stack + [Opened(frame)]);
    assert slots[0] in slots;
    FeedSlot(out, stack, frame, slots[0]);
    var after := State(out + SlotOuts(slots[0]), stack + [Opened(frame)] + SlotPend(slots[0]));
    if |slots| == 1 {
      FeedAllConcat(st, SlotItems(slots[0]), [Plain(CloseTok(bracket))]);
      FeedOne(after, Plain(CloseTok(bracket)));
      FeedCloseAfter(out, stack, frame, slots[0], bracket);
    } else {
      var sep := Plain(SepTok(breaks[0]));
      var rest := ListItems(slots[1..], breaks[1..]) + [Plain(CloseTok(bracket))];
      assert ListItems(slots, breaks) + [Plain(CloseTok(bracket))] == SlotItems(slots[0]) + ([sep] + rest);
      FeedAllConcat(st, SlotItems(slots[0]), [sep] + rest);
      FeedSepAfter(out, stack, frame, slots[0], breaks[0]);
      FeedOne(after, sep);
      FeedAllConcat(after, [sep], rest);
      FeedSlots(out, stack, AfterSep(frame, slots[0], breaks[0]), slots[1..], breaks[1..], bracket);
    }
  }

  // ---------- whole sentences ----------

  /** The parser reads the items of every derivation as its tree. */
  lemma ItemsParse(p: Phrase)
    requires Derivation(p)
    ensures ParseItems(Items(p)) == Ok(Tree(p))
  {
    hide FeedAll, Derivation, Items, Outs, Pend, Tree;
    var start := State([], []);
    FeedPhrase(start, p);
    PendPrec(p);
    UnwindPhrase(start, p, None);
    UnwindStops(State([] + [Tree(p)], []), None);
    assert [] + Pend(p) == Pend(p) && [] + Outs(p) == Outs(p);
  }

  /** No two derivations of the same items mean different trees. */
  lemma GrammarIsUnambiguous(p: Phrase, q: Phrase)
    requires Derivation(p) && Derivation(q) && Items(p) == Items(q)
    ensures Tree(p) == Tree(q)
  {
    ItemsParse(p);
    ItemsParse(q);
  }
}
