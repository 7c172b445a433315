/** From a formula's tokens to its tree: a shunting-yard whose operator stack also holds the open
    calls, parentheses and array literals. */
module FormulaParser {
  import opened Options
  import opened FormulaTokens

  // ---------- precedence ----------

  function InfixPrec(op: string): (r: Option<nat>) {
    if op in {"=", "<", ">", "<=", ">=", "<>"} then Some(1)
    else if op == "&" then Some(2)
    else if op in {"+", "-"} then Some(3)
    else if op in {"*", "/"} then Some(4)
    else if op == "^" then Some(5)
    else if op in {":", " ", ","} then Some(8)
    else None
  }

  const PREFIX_PREC := 7

  predicate RightAssoc(op: string) { op == "^" }

  // ---------- the two stacks ----------

  datatype Frame = Frame(bracket: Bracket, name: string, args: seq<Option<Ast>>, start: nat, rows: seq<nat>,
                         seenSep: bool)

  datatype Entry = Pending(op: string, kind: OpKind, prec: nat) | Opened(frame: Frame)

  datatype State = State(out: seq<Ast>, stack: seq<Entry>)

  datatype ParseError =
    | MissingOperand | UnbalancedExpression | SeparatorOutside | UnbalancedClosing | EmptyParentheses
    | UnknownOperator | UnexpectedToken | UnclosedBracket | ValuesLeft

  datatype Result<+T> = Ok(value: T) | Err(error: ParseError) {
    predicate IsFailure() { Err? }
    function PropagateFailure<U>(): (r: Result<U>) requires Err? { Err(error) }
    function Extract(): (r: T) requires Ok? { value }
  }

  /** Operands below the innermost open frame belong to the enclosing expression. */
  function Floor(stack: seq<Entry>): (r: nat) {
    if stack == [] then 0
    else
      match stack[|stack| - 1]
      case Opened(frame) => frame.start
      case Pending(_, _, _) => Floor(stack[..|stack| - 1])
  }

  function Need(kind: OpKind): (r: nat) { if kind == Infix then 2 else 1 }

  /** Replace the operands of an operator by its node, never reaching below the floor. */
  function ApplyOp(out: seq<Ast>, floor: nat, op: string, kind: OpKind): (r: Result<seq<Ast>>) {
    if |out| - Need(kind) < floor then Err(MissingOperand)
    else Ok(out[..|out| - Need(kind)] + [Op(kind, op, out[|out| - Need(kind)..], 0)])
  }

  /** Whether an operator already on the stack is applied before one of precedence minPrec is pushed. */
  predicate Yields(top: Entry, minPrec: Option<nat>) {
    top.Pending? && (minPrec.None? || (top.prec >= minPrec.value && !(top.prec == minPrec.value && RightAssoc(top.op))))
  }

  function Unwind(st: State, minPrec: Option<nat>): (r: Result<State>)
    decreases |st.stack|
  {
    if st.stack == [] || !Yields(st.stack[|st.stack| - 1], minPrec) then Ok(st)
    else
      var top, rest := st.stack[|st.stack| - 1], st.stack[..|st.stack| - 1];
      var out :- ApplyOp(st.out, Floor(rest), top.op, top.kind);
      Unwind(State(out, rest), minPrec)
  }

  /** The finished argument of a frame, taken off the operand stack. */
  function Collect(frame: Frame, out: seq<Ast>): (r: Result<(Frame, seq<Ast>)>) {
    if |out| > frame.start then
      if |out| - 1 > frame.start then Err(UnbalancedExpression)
      else Ok((frame.(args := frame.args + [Some(out[|out| - 1])]), out[..|out| - 1]))
    else if frame.seenSep || frame.bracket == FuncBracket then Ok((frame.(args := frame.args + [Some(Missing)]), out))
    else Ok((frame.(args := frame.args + [None]), out))
  }

  function Present(args: seq<Option<Ast>>): (r: seq<Ast>) {
    if args == [] then []
    else Present(args[..|args| - 1]) + if args[|args| - 1].Some? then [args[|args| - 1].value] else []
  }

  /** The node a closed frame becomes; plain grouping makes none. */
  function CloseFrame(frame: Frame): (r: Result<Ast>) {
    var args := Present(frame.args);
    match frame.bracket
    case FuncBracket =>
      var kept := if |args| == 1 && args[0] == Missing && !frame.seenSep then [] else args;
      var span := StaticRange(frame.name, kept);
      Ok(if span.Some? then span.value else Op(Func, frame.name, kept, 0))
    case ArrayBracket => Ok(Op(Array, "{}", args, |frame.rows| + 1))
    case ParenBracket =>
      if |args| > 1 then Ok(Op(Union, ",", args, 0))
      else if |args| == 1 then Ok(args[0])
      else Err(EmptyParentheses)
  }

  predicate HasFrame(stack: seq<Entry>) {
    exists i :: 0 <= i < |stack| && stack[i].Opened?
  }

  function FeedSep(st: State, row: bool): (r: Result<State>) {
    if !HasFrame(st.stack) then Err(SeparatorOutside)
    else
      var s :- Unwind(st, None);
      if s.stack == [] || !s.stack[|s.stack| - 1].Opened? then Err(SeparatorOutside)
      else
        var (frame, out) :- Collect(s.stack[|s.stack| - 1].frame, s.out);
        var marked := frame.(seenSep := true, start := |out|,
                             rows := if row && frame.bracket == ArrayBracket then frame.rows + [|frame.args|]
                               else frame.rows);
        Ok(State(out, s.stack[..|s.stack| - 1] + [Opened(marked)]))
  }

  function FeedClose(st: State): (r: Result<State>) {
    var s :- Unwind(st, None);
    if s.stack == [] then Err(UnbalancedClosing)
    else if !s.stack[|s.stack| - 1].Opened? then Err(UnbalancedClosing)
    else
      var (frame, out) :- Collect(s.stack[|s.stack| - 1].frame, s.out);
      var node :- CloseFrame(frame);
      Ok(State(out + [node], s.stack[..|s.stack| - 1]))
  }

  function FeedInfix(st: State, op: string): (r: Result<State>) {
    var prec := InfixPrec(op);
    if prec.None? then Err(UnknownOperator)
    else
      var s :- Unwind(st, prec);
      Ok(State(s.out, s.stack + [Pending(op, Infix, prec.value)]))
  }

  function Feed(st: State, item: Item): (r: Result<State>) {
    match item
    case Intersect => FeedInfix(st, " ")
    case Plain(RangeTok(value)) => Ok(st.(out := st.out + [Ref(value)]))
    case Plain(ConstTok(kind, value, number)) => Ok(st.(out := st.out + [Const(ConstTok(kind, value, number))]))
    case Plain(LiteralTok(value)) => Ok(st.(out := st.out + [Const(LiteralTok(value))]))
    case Plain(OpenTok(bracket, value)) =>
      var name := if bracket == FuncBracket then FuncName(value) else "";
      Ok(st.(stack := st.stack + [Opened(Frame(bracket, name, [], |st.out|, [], false))]))
    case Plain(SepTok(row)) => FeedSep(st, row)
    case Plain(CloseTok(_)) => FeedClose(st)
    case Plain(PrefixTok(op)) => Ok(st.(stack := st.stack + [Pending(op, Prefix, PREFIX_PREC)]))
    case Plain(PostfixTok(op)) =>
      var out :- ApplyOp(st.out, Floor(st.stack), op, Postfix);
      Ok(st.(out := out))
    case Plain(InfixTok(op)) => FeedInfix(st, op)
    case Plain(_) => Err(UnexpectedToken)
  }

  function FeedAll(st: State, items: seq<Item>): (r: Result<State>)
    decreases |items|
  {
    if items == [] then Ok(st)
    else
      var next :- Feed(st, items[0]);
      FeedAll(next, items[1..])
  }

  function Finish(st: State): (r: Result<Ast>) {
    var s :- Unwind(st, None);
    if HasFrame(s.stack) then Err(UnclosedBracket)
    else if |s.out| != 1 then Err(ValuesLeft)
    else Ok(s.out[0])
  }

  function ParseItems(items: seq<Item>): (r: Result<Ast>) {
    var st :- FeedAll(State([], []), items);
    Finish(st)
  }

  function Parse(tokens: seq<Token>): (r: Result<Ast>) {
    ParseItems(Normalise(Repair(tokens)))
  }

  // ---------- the program ----------

  /** The next token that is not white space. */
  method LookAhead(tokens: seq<Token>, from: nat) returns (next: Option<Token>)
    requires from <= |tokens|
    ensures next == NextSolid(tokens[from..])
  {
    for j := from to |tokens|
      invariant NextSolid(tokens[from..]) == NextSolid(tokens[j..])
    {
      assert tokens[j..][1..] == tokens[j + 1..];
      if tokens[j] != WhiteTok { return Some(tokens[j]); }
    }
    return None;
  }

  method NormaliseTokens(tokens: seq<Token>) returns (items: seq<Item>)
    ensures items == Normalise(tokens)
  {
    hide NextSolid, PrevEndsValue, NextStartsValue;
    items := [];
    var prev: Option<Token> := None;
    assert tokens[0..] == tokens;
    for i := 0 to |tokens|
      invariant items + NormaliseFrom(prev, tokens[i..]) == Normalise(tokens)
    {
      var token, rest := tokens[i], tokens[i + 1..];
      ghost var done := items;
      assert tokens[i..] == [token] + rest;
      if token != WhiteTok {
        items := items + [Plain(token)];
        prev := Some(token);
        assert done + ([Plain(token)] + NormaliseFrom(prev, rest)) == items + NormaliseFrom(prev, rest);
      } else if PrevEndsValue(prev) {
        var next := LookAhead(tokens, i + 1);
        if NextStartsValue(next) {
          items := items + [Intersect];
          prev := Some(WhiteTok);
          assert done + ([Intersect] + NormaliseFrom(prev, rest)) == items + NormaliseFrom(prev, rest);
        }
      }
    }
    assert tokens[|tokens|..] == [];
  }

  method UnwindLoop(st: State, minPrec: Option<nat>) returns (r: Result<State>)
    ensures r == Unwind(st, minPrec)
  {
    var out, stack := st.out, st.stack;
    while stack != [] && Yields(stack[|stack| - 1], minPrec)
      invariant Unwind(State(out, stack), minPrec) == Unwind(st, minPrec)
      decreases |stack|
    {
      var top := stack[|stack| - 1];
      stack := stack[..|stack| - 1];
      var need := Need(top.kind);
      if |out| - need < Floor(stack) { return Err(MissingOperand); }
      out := out[..|out| - need] + [Op(top.kind, top.op, out[|out| - need..], 0)];
    }
    return Ok(State(out, stack));
  }

  method FeedOperator(out: seq<Ast>, stack: seq<Entry>, op: string) returns (r: Result<State>)
    ensures r == FeedInfix(State(out, stack), op)
  {
    hide Unwind, InfixPrec;
    var prec := InfixPrec(op);
    if prec.None? { return Err(UnknownOperator); }
    var s :- UnwindLoop(State(out, stack), prec);
    return Ok(State(s.out, s.stack + [Pending(op, Infix, prec.value)]));
  }

  method FeedSeparator(out: seq<Ast>, stack: seq<Entry>, row: bool) returns (r: Result<State>)
    ensures r == FeedSep(State(out, stack), row)
  {
    hide Unwind, Collect, HasFrame;
    if !HasFrame(stack) { return Err(SeparatorOutside); }
    var s :- UnwindLoop(State(out, stack), None);
    if s.stack == [] || !s.stack[|s.stack| - 1].Opened? { return Err(SeparatorOutside); }
    var collected :- Collect(s.stack[|s.stack| - 1].frame, s.out);
    var frame, rest := collected.0, collected.1;
    frame := frame.(seenSep := true, start := |rest|);
    if row && frame.bracket == ArrayBracket {
      frame := frame.(rows := frame.rows + [|frame.args|]);
    }
    return Ok(State(rest, s.stack[..|s.stack| - 1] + [Opened(frame)]));
  }

  method FeedClosing(out: seq<Ast>, stack: seq<Entry>) returns (r: Result<State>)
    ensures r == FeedClose(State(out, stack))
  {
    hide Unwind, Collect, CloseFrame;
    var s :- UnwindLoop(State(out, stack), None);
    if s.stack == [] || !s.stack[|s.stack| - 1].Opened? { return Err(UnbalancedClosing); }
    var collected :- Collect(s.stack[|s.stack| - 1].frame, s.out);
    var frame, rest := collected.0, collected.1;
    var node :- CloseFrame(frame);
    return Ok(State(rest + [node], s.stack[..|s.stack| - 1]));
  }

  method FeedItem(out: seq<Ast>, stack: seq<Entry>, item: Item) returns (r: Result<State>)
    ensures r == Feed(State(out, stack), item)
  {
    hide FeedInfix, FeedSep, FeedClose, FuncName, ApplyOp, Floor;
    if item == Intersect || item.token.InfixTok? {
      r := FeedOperator(out, stack, if item == Intersect then " " else item.token.value);
      return;
    }
    var token := item.token;
    match token
    case RangeTok(value) => return Ok(State(out + [Ref(value)], stack));
    case ConstTok(_, _, _) => return Ok(State(out + [Const(token)], stack));
    case LiteralTok(_) => return Ok(State(out + [Const(token)], stack));
    case OpenTok(bracket, value) =>
      var name := if bracket == FuncBracket then FuncName(value) else "";
      return Ok(State(out, stack + [Opened(Frame(bracket, name, [], |out|, [], false))]));
    case SepTok(row) => r := FeedSeparator(out, stack, row);
    case CloseTok(_) => r := FeedClosing(out, stack);
    case PrefixTok(op) => return Ok(State(out, stack + [Pending(op, Prefix, PREFIX_PREC)]));
    case PostfixTok(op) =>
      var applied :- ApplyOp(out, Floor(stack), op, Postfix);
      return Ok(State(applied, stack));
    case _ => return Err(UnexpectedToken);
  }

  method ParseFormula(tokens: seq<Token>) returns (r: Result<Ast>)
    ensures r == Parse(tokens)
  {
    hide Feed, Unwind, HasFrame, Normalise, Repair;
    var items := NormaliseTokens(Repair(tokens));
    var out: seq<Ast>, stack: seq<Entry> := [], [];
    assert items[0..] == items;
    for i := 0 to |items|
      invariant FeedAll(State(out, stack), items[i..]) == FeedAll(State([], []), items)
    {
      assert items[i..] == [items[i]] + items[i + 1..];
      var next :- FeedItem(out, stack, items[i]);
      out, stack := next.out, next.stack;
    }
    assert items[|items|..] == [];
    var s :- UnwindLoop(State(out, stack), None);
    if HasFrame(s.stack) { return Err(UnclosedBracket); }
    if |s.out| != 1 { return Err(ValuesLeft); }
    return Ok(s.out[0]);
  }
}
