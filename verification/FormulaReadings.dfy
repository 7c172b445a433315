/** What the parser makes of given tokens, written out: which of two operators takes the operand
    between them, what calls, arrays, unions and missing arguments become, and what is refused. */
module FormulaReadings {
  import opened Options
  import opened FormulaTokens
  import opened FormulaParser
  import opened FormulaGrammar
  import opened FormulaSpacing

  predicate Operand(t: Token) {
    t.ConstTok? || (t.RangeTok? && t.value != ":")
  }

  function Node(t: Token): (r: Ast)
    requires Operand(t)
  {
    if t.ConstTok? then Const(t) else Ref(t.value)
  }

  /** The token between two operands; a blank is the intersection. */
  function Between(op: string): (r: Token) {
    if op == " " then WhiteTok else InfixTok(op)
  }

  // ---------- the grammar, rung by rung ----------

  const RUNGS: seq<set<string>> :=
    [{"=", "<", ">", "<=", ">=", "<>"}, {"&"}, {"+", "-"}, {"*", "/"}, {"^"}, {":", " ", ","}]

  /** The rung an operator stands on, from its precedence. */
  function Rung(op: string): (r: Option<nat>) {
    var prec := InfixPrec(op);
    if prec.None? then None else if prec.value == 8 then Some(5) else Some(prec.value - 1)
  }

  lemma RungIs(op: string)
    ensures Rung(op).Some? ==> Rung(op).value < 6 && op in RUNGS[Rung(op).value]
    ensures forall i :: 0 <= i < 6 && op in RUNGS[i] ==> Rung(op) == Some(i)
    ensures op == "^" <==> Rung(op) == Some(4)
    ensures InfixPrec(op)
      == if Rung(op).None? then None else Some(if Rung(op).value == 5 then 8 else Rung(op).value + 1)
  {
  }

  lemma FitsByRung(op: string, left: nat, right: nat)
    ensures OperandsFit(op, left, right) <==>
      && Rung(op).Some?
      && var p := if Rung(op).value == 5 then 8 else Rung(op).value + 1;
        if op == "^" then left > p && right >= p else left >= p && right > p
  {
    hide InfixPrec, Rung;
    RungIs(op);
  }

  lemma LevelByRung(p: Phrase)
    ensures p.Binary? && Rung(p.op).Some? ==> Level(p) == if Rung(p.op).value == 5 then 8 else Rung(p.op).value + 1
    ensures Derivation(p) && p.Binary? ==> Rung(p.op).Some? && Rung(p.op).value < 6
    ensures p.Prefixed? ==> Level(p) == 7
    ensures !p.Binary? && !p.Prefixed? ==> Level(p) == 9
  {
    if p.Binary? { RungIs(p.op); }
  }

  ghost predicate OnRungs(op: string, low: int) {
    exists i :: low <= i < 6 && 0 <= i && op in RUNGS[i]
  }

  lemma OnRungsIs(op: string, low: int)
    requires low >= 0
    ensures OnRungs(op, low) <==> Rung(op).Some? && Rung(op).value >= low
  {
    hide Rung;
    RungIs(op);
  }

  lemma BinaryByRung(op: string, left: Phrase, right: Phrase)
    ensures Derivation(Binary(op, left, right)) <==>
      && Derivation(left) && Derivation(right) && Rung(op).Some?
      && (left.Binary? ==> OnRungs(left.op, if op == "^" then Rung(op).value + 1 else Rung(op).value))
      && (right.Binary? ==> OnRungs(right.op, if op == "^" then Rung(op).value else Rung(op).value + 1))
      && (left.Prefixed? || right.Prefixed? ==> Rung(op).value < 5)
  {
    hide Level, Rung, OperandsFit, OnRungs, InfixPrec;
    RungIs(op);
    FitsByRung(op, Level(left), Level(right));
    LevelByRung(left);
    LevelByRung(right);
    if left.Binary? { forall n: nat { OnRungsIs(left.op, n); } }
    if right.Binary? { forall n: nat { OnRungsIs(right.op, n); } }
  }

  lemma PrefixByRung(op: string, inner: Phrase)
    ensures Derivation(Prefixed(op, inner)) <==> Derivation(inner) && (inner.Binary? ==> inner.op in {":", " ", ","})
  {
    hide Level, InfixPrec, Rung;
    LevelByRung(inner);
    if inner.Binary? { RungIs(inner.op); }
  }

  lemma PostfixByRung(op: string, inner: Phrase)
    ensures Derivation(Postfixed(inner, op)) <==> Derivation(inner) && !inner.Binary? && !inner.Prefixed?
  {
    hide Level, InfixPrec, Rung;
    LevelByRung(inner);
    if inner.Binary? { RungIs(inner.op); }
  }

  /** Where each kind of operator stands in the grammar. Six rungs of infix operators, the loosest
      first; one that groups to the left takes its own rung on its left, the power on its right. A
      prefix stands between the power and the references, a postfix above them all. */
  lemma RungsOfTheGrammar(op: string, left: Phrase, right: Phrase)
    ensures
      var rungs := [{"=", "<", ">", "<=", ">=", "<>"}, {"&"}, {"+", "-"}, {"*", "/"}, {"^"}, {":", " ", ","}];
      Derivation(Binary(op, left, right)) <==>
        && Derivation(left) && Derivation(right)
        && exists i :: 0 <= i < 6 && op in rungs[i]
            && (left.Binary? ==> exists j :: (if op == "^" then i < j < 6 else i <= j < 6) && left.op in rungs[j])
            && (right.Binary? ==> exists j :: (if op == "^" then i <= j < 6 else i < j < 6) && right.op in rungs[j])
            && (left.Prefixed? || right.Prefixed? ==> i < 5)
    ensures Derivation(Prefixed(op, left)) <==> Derivation(left) && (left.Binary? ==> left.op in {":", " ", ","})
    ensures Derivation(Postfixed(left, op)) <==> Derivation(left) && !left.Binary? && !left.Prefixed?
  {
    var rungs: seq<set<string>> :=
      [{"=", "<", ">", "<=", ">=", "<>"}, {"&"}, {"+", "-"}, {"*", "/"}, {"^"}, {":", " ", ","}];
    hide Derivation, InfixPrec, Rung;
    assert rungs == RUNGS;
    BinaryByRung(op, left, right);
    RungIs(op);
    PrefixByRung(op, left);
    PostfixByRung(op, left);
  }

  // ---------- two operators in a row ----------

  /** One token for each item. */
  ghost predicate Verbatim(raw: seq<Token>, items: seq<Item>) {
    |raw| == |items| && forall i :: 0 <= i < |raw| ==>
      items[i] == if raw[i] == WhiteTok then Intersect else Plain(raw[i])
  }

  lemma {:induction false} VerbatimSpells(raw: seq<Token>, items: seq<Item>)
    requires Verbatim(raw, items)
    ensures Spells(raw, items)
    decreases |raw|
  {
    if raw != [] {
      VerbatimSpells(raw[1..], items[1..]);
    }
  }

  lemma VerbatimParses(p: Phrase, raw: seq<Token>)
    requires Derivation(p) && Verbatim(raw, Items(p))
    ensures Parse(raw) == Ok(Tree(p))
  {
    hide *;
    VerbatimSpells(raw, Items(p));
    SentencesParse(p, raw);
  }

  lemma LeafIs(t: Token)
    requires Operand(t)
    ensures Derivation(Leaf(t)) && Items(Leaf(t)) == [Plain(t)] && Tree(Leaf(t)) == Node(t) && t != WhiteTok
  {
  }

  lemma TwoLeft(a: Token, x: string, b: Token, y: string, c: Token)
    requires Operand(a) && Operand(b) && Operand(c) && Rung(x).Some? && Rung(y).Some?
    requires Rung(x).value > Rung(y).value || (Rung(x) == Rung(y) && y != "^")
    ensures Parse([a, Between(x), b, Between(y), c])
      == Ok(Op(Infix, y, [Op(Infix, x, [Node(a), Node(b)], 0), Node(c)], 0))
  {
    hide Derivation, Rung, Operand, Parse;
    var inner := Binary(x, Leaf(a), Leaf(b));
    var p := Binary(y, inner, Leaf(c));
    LeafIs(a);
    LeafIs(b);
    LeafIs(c);
    RungIs(x);
    RungIs(y);
    BinaryByRung(x, Leaf(a), Leaf(b));
    BinaryByRung(y, inner, Leaf(c));
    assert Items(inner) == [Plain(a), InfixItem(x), Plain(b)];
    assert Items(p) == [Plain(a), InfixItem(x), Plain(b), InfixItem(y), Plain(c)];
    VerbatimParses(p, [a, Between(x), b, Between(y), c]);
  }

  lemma TwoRight(a: Token, x: string, b: Token, y: string, c: Token)
    requires Operand(a) && Operand(b) && Operand(c) && Rung(x).Some? && Rung(y).Some?
    requires Rung(x).value < Rung(y).value || (Rung(x) == Rung(y) && y == "^")
    ensures Parse([a, Between(x), b, Between(y), c])
      == Ok(Op(Infix, x, [Node(a), Op(Infix, y, [Node(b), Node(c)], 0)], 0))
  {
    hide Derivation, Rung, Operand, Parse;
    var inner := Binary(y, Leaf(b), Leaf(c));
    var p := Binary(x, Leaf(a), inner);
    LeafIs(a);
    LeafIs(b);
    LeafIs(c);
    RungIs(x);
    RungIs(y);
    BinaryByRung(y, Leaf(b), Leaf(c));
    BinaryByRung(x, Leaf(a), inner);
    assert Items(inner) == [Plain(b), InfixItem(y), Plain(c)];
    assert Items(p) == [Plain(a), InfixItem(x), Plain(b), InfixItem(y), Plain(c)];
    VerbatimParses(p, [a, Between(x), b, Between(y), c]);
  }

  /** Of two operators around one operand the one on the higher rung takes it; on one rung the
      left one does, between two powers the right one. */
  lemma TwoOperators(a: Token, x: string, b: Token, y: string, c: Token)
    requires Operand(a) && Operand(b) && Operand(c)
    ensures
      var rungs := [{"=", "<", ">", "<=", ">=", "<>"}, {"&"}, {"+", "-"}, {"*", "/"}, {"^"}, {":", " ", ","}];
      forall i, j :: 0 <= i < 6 && 0 <= j < 6 && x in rungs[i] && y in rungs[j] ==>
        Parse([a, Between(x), b, Between(y), c]) == Ok(
          if i > j || (i == j && i != 4) then Op(Infix, y, [Op(Infix, x, [Node(a), Node(b)], 0), Node(c)], 0)
          else Op(Infix, x, [Node(a), Op(Infix, y, [Node(b), Node(c)], 0)], 0))
  {
    var rungs: seq<set<string>> :=
      [{"=", "<", ">", "<=", ">=", "<>"}, {"&"}, {"+", "-"}, {"*", "/"}, {"^"}, {":", " ", ","}];
    hide Parse, Rung, Operand;
    assert rungs == RUNGS;
    RungIs(x);
    RungIs(y);
    forall i, j | 0 <= i < 6 && 0 <= j < 6 && x in rungs[i] && y in rungs[j]
      ensures Parse([a, Between(x), b, Between(y), c]) == Ok(
          if i > j || (i == j && i != 4) then Op(Infix, y, [Op(Infix, x, [Node(a), Node(b)], 0), Node(c)], 0)
          else Op(Infix, x, [Node(a), Op(Infix, y, [Node(b), Node(c)], 0)], 0))
    {
      if i > j || (i == j && i != 4) {
        TwoLeft(a, x, b, y, c);
      } else {
        TwoRight(a, x, b, y, c);
      }
    }
  }

  // ---------- prefixes, postfixes and brackets beside an operator ----------

  /** A sign takes its operand before every operator except a reference operator. */
  lemma PrefixBeforeInfix(s: string, a: Token, x: string, b: Token)
    requires Operand(a) && Operand(b)
    ensures x in {"=", "<", ">", "<=", ">=", "<>", "&", "+", "-", "*", "/", "^"} ==>
      Parse([PrefixTok(s), a, Between(x), b])
        == Ok(Op(Infix, x, [Op(Prefix, s, [Node(a)], 0), Node(b)], 0))
    ensures x in {":", " ", ","} ==>
      Parse([PrefixTok(s), a, Between(x), b])
        == Ok(Op(Prefix, s, [Op(Infix, x, [Node(a), Node(b)], 0)], 0))
  {
    hide Derivation, Operand, Parse;
    LeafIs(a);
    LeafIs(b);
    RungIs(x);
    var raw := [PrefixTok(s), a, Between(x), b];
    if x in {"=", "<", ">", "<=", ">=", "<>", "&", "+", "-", "*", "/", "^"} {
      var p := Binary(x, Prefixed(s, Leaf(a)), Leaf(b));
      PrefixByRung(s, Leaf(a));
      BinaryByRung(x, Prefixed(s, Leaf(a)), Leaf(b));
      assert Items(p) == [Plain(PrefixTok(s)), Plain(a), InfixItem(x), Plain(b)];
      VerbatimParses(p, raw);
    } else if x in {":", " ", ","} {
      var p := Prefixed(s, Binary(x, Leaf(a), Leaf(b)));
      BinaryByRung(x, Leaf(a), Leaf(b));
      PrefixByRung(s, Binary(x, Leaf(a), Leaf(b)));
      assert Items(p) == [Plain(PrefixTok(s)), Plain(a), InfixItem(x), Plain(b)];
      VerbatimParses(p, raw);
    }
  }

  /** A postfix takes the one operand before it, whatever operator or sign stands further left. */
  lemma PostfixFirst(s: string, a: Token, x: string, b: Token, t: string)
    requires Operand(a) && Operand(b)
    ensures x in {"=", "<", ">", "<=", ">=", "<>", "&", "+", "-", "*", "/", "^", ":", " ", ","} ==>
      Parse([a, Between(x), b, PostfixTok(t)])
        == Ok(Op(Infix, x, [Node(a), Op(Postfix, t, [Node(b)], 0)], 0))
    ensures Parse([PrefixTok(s), a, PostfixTok(t)]) == Ok(Op(Prefix, s, [Op(Postfix, t, [Node(a)], 0)], 0))
  {
    hide Derivation, Operand, Parse;
    LeafIs(a);
    LeafIs(b);
    RungIs(x);
    PostfixByRung(t, Leaf(a));
    PostfixByRung(t, Leaf(b));
    if x in {"=", "<", ">", "<=", ">=", "<>", "&", "+", "-", "*", "/", "^", ":", " ", ","} {
      var p := Binary(x, Leaf(a), Postfixed(Leaf(b), t));
      BinaryByRung(x, Leaf(a), Postfixed(Leaf(b), t));
      assert Items(p) == [Plain(a), InfixItem(x), Plain(b), Plain(PostfixTok(t))];
      VerbatimParses(p, [a, Between(x), b, PostfixTok(t)]);
    }
    var q := Prefixed(s, Postfixed(Leaf(a), t));
    PrefixByRung(s, Postfixed(Leaf(a), t));
    assert Items(q) == [Plain(PrefixTok(s)), Plain(a), Plain(PostfixTok(t))];
    VerbatimParses(q, [PrefixTok(s), a, PostfixTok(t)]);
  }

  // ---------- lists between brackets ----------

  function ArgTokens(arg: Option<Token>): (r: seq<Token>) {
    if arg.Some? then [arg.value] else []
  }

  /** Arguments with a separator between neighbours; an absent one leaves its place empty. */
  function Listed(args: seq<Option<Token>>, rows: seq<bool>): (r: seq<Token>)
    requires |args| == |rows| + 1
  {
    if rows == [] then ArgTokens(args[0])
    else ArgTokens(args[0]) + [SepTok(rows[0])] + Listed(args[1..], rows[1..])
  }

  ghost predicate Operands(args: seq<Option<Token>>) {
    forall i :: 0 <= i < |args| && args[i].Some? ==> Operand(args[i].value)
  }

  function Nodes(args: seq<Option<Token>>): (r: seq<Ast>)
    requires Operands(args)
  {
    seq(|args|, i requires 0 <= i < |args| => if args[i].Some? then Node(args[i].value) else Missing)
  }

  function Slot(arg: Option<Token>): (r: Option<Phrase>) {
    if arg.Some? then Some(Leaf(arg.value)) else None
  }

  function Slots(args: seq<Option<Token>>): (r: seq<Option<Phrase>>)
    ensures |r| == |args| && forall i :: 0 <= i < |args| ==> r[i] == Slot(args[i])
  {
    seq(|args|, i requires 0 <= i < |args| => Slot(args[i]))
  }

  lemma {:induction false} SlotTreesAre(args: seq<Option<Token>>)
    requires Operands(args)
    ensures SlotTrees(Slots(args)) == Nodes(args)
    decreases |args|
  {
    if args != [] {
      var rest := args[1..];
      assert Operands(rest) by {
        assert forall i :: 0 <= i < |rest| ==> rest[i] == args[i + 1];
      }
      SlotTreesAre(rest);
      assert Slots(args)[1..] == Slots(rest);
      if args[0].Some? { LeafIs(args[0].value); }
      assert Nodes(args) == [Nodes(args)[0]] + Nodes(rest);
    }
  }

  lemma {:induction false} ListedVerbatim(args: seq<Option<Token>>, rows: seq<bool>)
    requires |args| == |rows| + 1 && Operands(args)
    ensures Verbatim(Listed(args, rows), ListItems(Slots(args), rows))
    decreases |args|
  {
    var slots := Slots(args);
    if args[0].Some? { LeafIs(args[0].value); }
    assert Verbatim(ArgTokens(args[0]), SlotItems(slots[0]));
    if rows != [] {
      var rest := args[1..];
      assert Operands(rest) by {
        assert forall i :: 0 <= i < |rest| ==> rest[i] == args[i + 1];
      }
      ListedVerbatim(rest, rows[1..]);
      assert slots[1..] == Slots(rest);
    }
  }

  lemma SlotsAreDerived(args: seq<Option<Token>>)
    requires Operands(args)
    ensures SlotsDerive(Slots(args))
  {
    forall i | 0 <= i < |args| && args[i].Some? ensures Derivation(Slots(args)[i].value) {
      LeafIs(args[i].value);
    }
  }

  lemma {:induction false} RowsCount(rows: seq<bool>)
    ensures Count(rows) == multiset(rows)[true]
  {
    if rows != [] {
      RowsCount(rows[1..]);
      assert rows == [rows[0]] + rows[1..];
    }
  }

  lemma ListParses(bracket: Bracket, value: string, args: seq<Option<Token>>, rows: seq<bool>)
    requires |args| == |rows| + 1 && Operands(args) && ListFits(bracket, value, Slots(args))
    ensures var p := Bracketed(bracket, value, Slots(args), rows);
      Parse([OpenTok(bracket, value)] + Listed(args, rows) + [CloseTok(bracket)]) == Ok(Tree(p))
  {
    hide Parse, Tree, ListFits, Operands;
    var p := Bracketed(bracket, value, Slots(args), rows);
    SlotsAreDerived(args);
    ListedVerbatim(args, rows);
    var raw := [OpenTok(bracket, value)] + Listed(args, rows) + [CloseTok(bracket)];
    assert Verbatim(raw, Items(p));
    VerbatimParses(p, raw);
  }

  /** A parenthesis of one operand is that operand and of more their union; an array keeps every
      place and has one row more than it has row separators. */
  lemma Lists(value: string, args: seq<Option<Token>>, rows: seq<bool>)
    requires |args| == |rows| + 1 && Operands(args) && args[0].Some?
    ensures Parse([OpenTok(ParenBracket, value)] + Listed(args, rows) + [CloseTok(ParenBracket)])
      == Ok(if |args| == 1 then Nodes(args)[0] else Op(Union, ",", Nodes(args), 0))
    ensures Parse([OpenTok(ArrayBracket, value)] + Listed(args, rows) + [CloseTok(ArrayBracket)])
      == Ok(Op(Array, "{}", Nodes(args), 1 + multiset(rows)[true]))
  {
    hide Parse, Listed, Operands;
    SlotTreesAre(args);
    RowsCount(rows);
    ListParses(ParenBracket, value, args, rows);
    ListParses(ArrayBracket, value, args, rows);
  }

  /** Nothing between the brackets. */
  lemma EmptyLists(value: string)
    ensures CallName(value) ==>
      Parse([OpenTok(FuncBracket, value), CloseTok(FuncBracket)]) == Ok(Op(Func, FuncName(value), [], 0))
    ensures Parse([OpenTok(ArrayBracket, value), CloseTok(ArrayBracket)]) == Ok(Op(Array, "{}", [], 1))
  {
    hide Parse, CallName;
    if CallName(value) {
      VerbatimParses(Bracketed(FuncBracket, value, [], []), [OpenTok(FuncBracket, value), CloseTok(FuncBracket)]);
    }
    VerbatimParses(Bracketed(ArrayBracket, value, [], []), [OpenTok(ArrayBracket, value), CloseTok(ArrayBracket)]);
  }

  /** The name of a call: the bracket and blanks at its end go, small letters are raised. */
  lemma {:induction false} CallNameIs(value: string)
    ensures var name := FuncName(value);
      && |name| <= |value|
      && (forall i :: 0 <= i < |name| ==>
          name[i] as int == if 'a' <= value[i] <= 'z' then value[i] as int - 32 else value[i] as int)
      && (forall i :: |name| <= i < |value| ==> value[i] in {'(', ' '})
      && (name != "" ==> value[|name| - 1] !in {'(', ' '})
    decreases |value|
  {
    if |value| > 0 && (value[|value| - 1] == '(' || value[|value| - 1] == ' ') {
      CallNameIs(value[..|value| - 1]);
    }
  }

  function Group(value: string, inner: Phrase): (r: Phrase) {
    Bracketed(ParenBracket, value, [Some(inner)], [])
  }

  lemma Grouped(value: string, inner: Phrase)
    requires Derivation(inner)
    ensures Derivation(Group(value, inner)) && Tree(Group(value, inner)) == Tree(inner)
    ensures Items(Group(value, inner))
      == [Plain(OpenTok(ParenBracket, value))] + Items(inner) + [Plain(CloseTok(ParenBracket))]
  {
    assert ListItems([Some(inner)], []) == SlotItems(Some(inner)) == Items(inner);
  }

  lemma EveryOperatorHasARung(x: string)
    requires x in {"=", "<", ">", "<=", ">=", "<>", "&", "+", "-", "*", "/", "^", ":", " ", ","}
    ensures Rung(x).Some?
  {
  }

  lemma GroupOnTheLeft(a: Token, x: string, b: Token, y: string, c: Token)
    requires Operand(a) && Operand(b) && Operand(c) && Rung(x).Some? && Rung(y).Some?
    ensures Parse([OpenTok(ParenBracket, "("), a, Between(x), b, CloseTok(ParenBracket), Between(y), c])
      == Ok(Op(Infix, y, [Op(Infix, x, [Node(a), Node(b)], 0), Node(c)], 0))
  {
    hide Derivation, Operand, Parse, Rung;
    LeafIs(a);
    LeafIs(b);
    LeafIs(c);
    var inner := Binary(x, Leaf(a), Leaf(b));
    BinaryByRung(x, Leaf(a), Leaf(b));
    Grouped("(", inner);
    var p := Binary(y, Group("(", inner), Leaf(c));
    BinaryByRung(y, Group("(", inner), Leaf(c));
    assert Items(inner) == [Plain(a), InfixItem(x), Plain(b)];
    assert Items(p) == Items(Group("(", inner)) + [InfixItem(y)] + Items(Leaf(c));
    VerbatimParses(p, [OpenTok(ParenBracket, "("), a, Between(x), b, CloseTok(ParenBracket), Between(y), c]);
  }

  lemma GroupOnTheRight(a: Token, x: string, b: Token, y: string, c: Token)
    requires Operand(a) && Operand(b) && Operand(c) && Rung(x).Some? && Rung(y).Some?
    ensures Parse([a, Between(x), OpenTok(ParenBracket, "("), b, Between(y), c, CloseTok(ParenBracket)])
      == Ok(Op(Infix, x, [Node(a), Op(Infix, y, [Node(b), Node(c)], 0)], 0))
  {
    hide Derivation, Operand, Parse, Rung;
    LeafIs(a);
    LeafIs(b);
    LeafIs(c);
    var inner := Binary(y, Leaf(b), Leaf(c));
    BinaryByRung(y, Leaf(b), Leaf(c));
    Grouped("(", inner);
    var p := Binary(x, Leaf(a), Group("(", inner));
    BinaryByRung(x, Leaf(a), Group("(", inner));
    assert Items(inner) == [Plain(b), InfixItem(y), Plain(c)];
    assert Items(p) == Items(Leaf(a)) + [InfixItem(x)] + Items(Group("(", inner));
    VerbatimParses(p, [a, Between(x), OpenTok(ParenBracket, "("), b, Between(y), c, CloseTok(ParenBracket)]);
  }

  /** Brackets decide before any operator does. */
  lemma BracketsFirst(a: Token, x: string, b: Token, y: string, c: Token)
    requires Operand(a) && Operand(b) && Operand(c)
    requires {x, y} <= {"=", "<", ">", "<=", ">=", "<>", "&", "+", "-", "*", "/", "^", ":", " ", ","}
    ensures Parse([OpenTok(ParenBracket, "("), a, Between(x), b, CloseTok(ParenBracket), Between(y), c])
      == Ok(Op(Infix, y, [Op(Infix, x, [Node(a), Node(b)], 0), Node(c)], 0))
    ensures Parse([a, Between(x), OpenTok(ParenBracket, "("), b, Between(y), c, CloseTok(ParenBracket)])
      == Ok(Op(Infix, x, [Node(a), Op(Infix, y, [Node(b), Node(c)], 0)], 0))
  {
    hide *;
    assert x in {x, y} && y in {x, y};
    EveryOperatorHasARung(x);
    EveryOperatorHasARung(y);
    GroupOnTheLeft(a, x, b, y, c);
    GroupOnTheRight(a, x, b, y, c);
  }

  // ---------- what is refused ----------

  function Plains(raw: seq<Token>): (r: seq<Item>) {
    seq(|raw|, i requires 0 <= i < |raw| => Plain(raw[i]))
  }

  lemma {:induction false} KeptAsItIs(prev: Option<Token>, raw: seq<Token>)
    requires forall i :: 0 <= i < |raw| ==> raw[i] != WhiteTok
    ensures NormaliseFrom(prev, raw) == Plains(raw)
    decreases |raw|
  {
    if raw != [] {
      hide NextSolid, PrevEndsValue, NextStartsValue;
      KeptAsItIs(Some(raw[0]), raw[1..]);
      assert Plains(raw) == [Plain(raw[0])] + Plains(raw[1..]);
    }
  }

  lemma ParsePlain(raw: seq<Token>)
    requires forall i :: 0 <= i < |raw| ==> raw[i] != WhiteTok && Unrepaired(raw[i])
    ensures Parse(raw) == ParseItems(Plains(raw))
  {
    hide ParseItems, Unrepaired;
    RepairNothing(raw);
    KeptAsItIs(None, raw);
  }

  /** What the parser makes of the items that are left. */
  function Rest(st: State, items: seq<Item>): (r: Result<Ast>) {
    var last :- FeedAll(st, items);
    Finish(last)
  }

  lemma Step(st: State, item: Item, rest: seq<Item>)
    ensures Rest(st, [item] + rest) ==
      if Feed(st, item).Ok? then Rest(Feed(st, item).value, rest) else Err(Feed(st, item).error)
  {
    hide Feed, Finish;
    assert ([item] + rest)[1..] == rest;
  }

  const START := State([], [])

  /** The first token after the repair is read on an empty stack. */
  lemma Begin(raw: seq<Token>)
    requires forall i :: 0 <= i < |raw| ==> raw[i] != WhiteTok && Unrepaired(raw[i])
    ensures Parse(raw) == Rest(START, Plains(raw))
    ensures raw != [] ==> Plains(raw) == [Plain(raw[0])] + Plains(raw[1..])
  {
    hide FeedAll, Finish, Unrepaired, Normalise, Repair;
    ParsePlain(raw);
  }

  lemma OperandFeeds(st: State, t: Token)
    requires Operand(t)
    ensures Feed(st, Plain(t)) == Ok(State(st.out + [Node(t)], st.stack))
    ensures t != WhiteTok && Unrepaired(t)
  {
  }

  lemma NothingPending(out: seq<Ast>)
    ensures Finish(State(out, [])) == if |out| == 1 then Ok(out[0]) else Err(ValuesLeft)
    ensures forall row :: FeedSep(State(out, []), row) == Err(SeparatorOutside)
    ensures FeedClose(State(out, [])) == Err(UnbalancedClosing)
  {
  }

  lemma NoItems(st: State)
    ensures Rest(st, []) == Finish(st)
  {
    hide Finish;
  }

  lemma FirstFeeds(t: Token)
    requires Operand(t)
    ensures Feed(START, Plain(t)) == Ok(State([Node(t)], [])) && t != WhiteTok && Unrepaired(t)
  {
    assert START.out + [Node(t)] == [Node(t)];
  }

  /** No operand, and two of them side by side. */
  lemma OperandsMiscounted(a: Token, b: Token)
    requires Operand(a) && Operand(b)
    ensures Parse([]) == Err(ValuesLeft) && Parse([a, b]) == Err(ValuesLeft)
  {
    hide Parse, Rest, Finish, Operand, Feed, Unrepaired;
    Begin([]);
    assert Plains([]) == [];
    NoItems(START);
    NothingPending([]);
    FirstFeeds(a);
    var one := State([Node(a)], []);
    OperandFeeds(one, b);
    Begin([a, b]);
    assert Plains([a, b]) == [Plain(a)] + ([Plain(b)] + []);
    Step(START, Plain(a), [Plain(b)] + []);
    Step(one, Plain(b), []);
    var two := State([Node(a), Node(b)], []);
    assert one.out + [Node(b)] == two.out;
    NoItems(two);
    NothingPending(two.out);
  }

  lemma LoneOperator(out: seq<Ast>, op: string, kind: OpKind, prec: nat)
    requires |out| < Need(kind)
    ensures Finish(State(out, [Pending(op, kind, prec)])) == Err(MissingOperand)
  {
  }

  /** A sign or a postfix without an operand, an operator short of one, and one nobody knows. */
  lemma OperatorsRefused(a: Token, x: string)
    requires Operand(a)
    ensures Parse([PrefixTok(x)]) == Err(MissingOperand) && Parse([PostfixTok(x)]) == Err(MissingOperand)
    ensures Parse([a, InfixTok(x)]) == Err(
      if x in {"=", "<", ">", "<=", ">=", "<>", "&", "+", "-", "*", "/", "^", ":", " ", ","} then MissingOperand
      else UnknownOperator)
  {
    hide Parse, Rest, Finish, Operand;
    Begin([PrefixTok(x)]);
    Step(START, Plain(PrefixTok(x)), []);
    NoItems(State([], [Pending(x, Prefix, PREFIX_PREC)]));
    LoneOperator([], x, Prefix, PREFIX_PREC);
    assert START.stack + [Pending(x, Prefix, PREFIX_PREC)] == [Pending(x, Prefix, PREFIX_PREC)];
    Begin([PostfixTok(x)]);
    Step(START, Plain(PostfixTok(x)), []);
    FirstFeeds(a);
    Begin([a, InfixTok(x)]);
    var one := State([Node(a)], []);
    assert Plains([a, InfixTok(x)]) == [Plain(a)] + ([Plain(InfixTok(x))] + []);
    Step(START, Plain(a), [Plain(InfixTok(x))] + []);
    Step(one, Plain(InfixTok(x)), []);
    if InfixPrec(x).Some? {
      var entry := Pending(x, Infix, InfixPrec(x).value);
      assert one.stack + [entry] == [entry];
      NoItems(State([Node(a)], [entry]));
      LoneOperator([Node(a)], x, Infix, entry.prec);
    }
  }

  function Inside(st: State, t: Token): (r: State)
    requires t.OpenTok?
  {
    var name := if t.bracket == FuncBracket then FuncName(t.value) else "";
    State(st.out, st.stack + [Opened(Frame(t.bracket, name, [], |st.out|, [], false))])
  }

  lemma InsideFeeds(st: State, t: Token)
    requires t.OpenTok?
    ensures Feed(st, Plain(t)) == Ok(Inside(st, t)) && Inside(st, t).stack[|st.stack|].Opened?
    ensures Floor(Inside(st, t).stack) == |st.out| && Unwind(Inside(st, t), None) == Ok(Inside(st, t))
  {
    hide FuncName;
  }

  lemma LeftOpen(st: State)
    requires st.stack != [] && st.stack[|st.stack| - 1].Opened?
    ensures Finish(st) == Err(UnclosedBracket) && Unwind(st, None) == Ok(st)
  {
  }

  lemma LeftOpenRefused(a: Token, t: Token)
    requires Operand(a) && t.OpenTok? && Unrepaired(t)
    ensures Parse([t, a]) == Err(UnclosedBracket)
  {
    hide Parse, Rest, Finish, Operand, Feed, Unwind, FuncName, Unrepaired;
    FirstFeeds(a);
    Begin([t, a]);
    assert Plains([t, a]) == [Plain(t)] + ([Plain(a)] + []);
    InsideFeeds(START, t);
    Step(START, Plain(t), [Plain(a)] + []);
    var inside := Inside(START, t);
    OperandFeeds(inside, a);
    Step(inside, Plain(a), []);
    var last := State(inside.out + [Node(a)], inside.stack);
    NoItems(last);
    LeftOpen(last);
  }

  /** A separator or a closing bracket with nothing open, and a bracket left open. */
  lemma BracketsUnbalanced(a: Token, b: Token, t: Token)
    requires Operand(a) && Operand(b) && t.OpenTok? && Unrepaired(t)
    ensures Parse([a, SepTok(false), b]) == Err(SeparatorOutside)
    ensures Parse([a, CloseTok(t.bracket)]) == Err(UnbalancedClosing)
    ensures Parse([t, a]) == Err(UnclosedBracket)
  {
    hide Parse, Rest, Finish, Operand, FeedSep, FeedClose, Unwind, FuncName;
    OperandFeeds(START, b);
    FirstFeeds(a);
    var one := State([Node(a)], []);
    NothingPending(one.out);
    Begin([a, SepTok(false), b]);
    assert Plains([a, SepTok(false), b]) == [Plain(a)] + ([Plain(SepTok(false))] + [Plain(b)]);
    Step(START, Plain(a), [Plain(SepTok(false))] + [Plain(b)]);
    Step(one, Plain(SepTok(false)), [Plain(b)]);
    Begin([a, CloseTok(t.bracket)]);
    assert Plains([a, CloseTok(t.bracket)]) == [Plain(a)] + ([Plain(CloseTok(t.bracket))] + []);
    Step(START, Plain(a), [Plain(CloseTok(t.bracket))] + []);
    Step(one, Plain(CloseTok(t.bracket)), []);
    LeftOpenRefused(a, t);
  }

  lemma EmptyPairRefused(st: State)
    requires st == Inside(START, OpenTok(ParenBracket, "("))
    ensures Feed(st, Plain(CloseTok(ParenBracket))) == Err(EmptyParentheses)
  {
    hide Unwind;
    LeftOpen(st);
    var frame := Frame(ParenBracket, "", [], 0, [], false);
    assert st == State([], [Opened(frame)]);
    assert Present([None]) == [];
    assert frame.args + [None] == [None];
  }

  lemma NothingInside()
    ensures Parse([OpenTok(ParenBracket, "("), CloseTok(ParenBracket)]) == Err(EmptyParentheses)
  {
    hide Parse, Rest, Finish, Unwind, Feed;
    var t, close := OpenTok(ParenBracket, "("), CloseTok(ParenBracket);
    Begin([t, close]);
    assert Plains([t, close]) == [Plain(t)] + ([Plain(close)] + []);
    InsideFeeds(START, t);
    Step(START, Plain(t), [Plain(close)] + []);
    EmptyPairRefused(Inside(START, t));
    Step(Inside(START, t), Plain(close), []);
  }

  lemma CloseIsUnrepaired(bracket: Bracket)
    ensures Unrepaired(CloseTok(bracket))
  {
  }

  lemma TwoRefused(st: State, bracket: Bracket)
    requires st.stack != [] && st.stack[|st.stack| - 1].Opened?
    requires |st.out| > st.stack[|st.stack| - 1].frame.start + 1
    ensures Feed(st, Plain(CloseTok(bracket))) == Err(UnbalancedExpression)
  {
    hide Unwind;
    LeftOpen(st);
  }

  lemma TwoInOnePlace(a: Token, b: Token, t: Token)
    requires Operand(a) && Operand(b) && t.OpenTok? && Unrepaired(t)
    ensures Parse([t, a, b, CloseTok(t.bracket)]) == Err(UnbalancedExpression)
  {
    hide Parse, Rest, Finish, Operand, Feed, Unwind, FuncName, Unrepaired;
    var close := CloseTok(t.bracket);
    FirstFeeds(a);
    FirstFeeds(b);
    assert Unrepaired(close) by { CloseIsUnrepaired(t.bracket); }
    Begin([t, a, b, close]);
    assert Plains([t, a, b, close]) == [Plain(t)] + ([Plain(a)] + ([Plain(b)] + ([Plain(close)] + [])));
    InsideFeeds(START, t);
    var inside := Inside(START, t);
    Step(START, Plain(t), [Plain(a)] + ([Plain(b)] + ([Plain(close)] + [])));
    OperandFeeds(inside, a);
    Step(inside, Plain(a), [Plain(b)] + ([Plain(close)] + []));
    var one := State(inside.out + [Node(a)], inside.stack);
    OperandFeeds(one, b);
    Step(one, Plain(b), [Plain(close)] + []);
    var two := State(one.out + [Node(b)], one.stack);
    TwoRefused(two, t.bracket);
    Step(two, Plain(close), []);
  }

  lemma NotFromOutside(a: Token, x: string, t: Token)
    requires Operand(a) && t.OpenTok? && Unrepaired(t)
    ensures Parse([a, t, PostfixTok(x)]) == Err(MissingOperand)
  {
    hide Parse, Rest, Finish, Operand, Unwind, FuncName, Floor;
    var last := PostfixTok(x);
    FirstFeeds(a);
    Begin([a, t, last]);
    assert Plains([a, t, last]) == [Plain(a)] + ([Plain(t)] + ([Plain(last)] + []));
    Step(START, Plain(a), [Plain(t)] + ([Plain(last)] + []));
    var one := State([Node(a)], []);
    InsideFeeds(one, t);
    Step(one, Plain(t), [Plain(last)] + []);
    Step(Inside(one, t), Plain(last), []);
  }

  /** Inside a bracket: nothing in a parenthesis, two operands in one place, and a postfix that
      would have to take its operand from outside. */
  lemma InsideRefused(a: Token, b: Token, x: string, t: Token)
    requires Operand(a) && Operand(b) && t.OpenTok? && Unrepaired(t)
    ensures Parse([OpenTok(ParenBracket, "("), CloseTok(ParenBracket)]) == Err(EmptyParentheses)
    ensures Parse([t, a, b, CloseTok(t.bracket)]) == Err(UnbalancedExpression)
    ensures Parse([a, t, PostfixTok(x)]) == Err(MissingOperand)
  {
    hide *;
    NothingInside();
    TwoInOnePlace(a, b, t);
    NotFromOutside(a, x, t);
  }

  lemma ParenIsUnrepaired(value: string)
    ensures Unrepaired(OpenTok(ParenBracket, value))
  {
  }

  lemma CollectOne(frame: Frame, node: Ast)
    requires frame.args == [] && frame.start == 0 && frame.bracket == ParenBracket
    ensures Collect(frame, [node]) == Ok((frame.(args := [Some(node)]), []))
    ensures CloseFrame(frame.(args := [Some(node)])) == Ok(node)
  {
    assert frame.args + [Some(node)] == [Some(node)] && [node][..0] == [];
    PresentAppend([], node);
    assert [] + [Some(node)] == [Some(node)] && Present([]) == [] && [] + [node] == [node];
  }

  lemma OneCloses(st: State, node: Ast, bracket: Bracket)
    requires st == State(START.out + [node], Inside(START, OpenTok(ParenBracket, "(")).stack)
    ensures Feed(st, Plain(CloseTok(bracket))) == Ok(State([node], []))
  {
    hide Unwind, Collect, CloseFrame;
    LeftOpen(st);
    var frame := Frame(ParenBracket, "", [], 0, [], false);
    assert st.out == [node] && st.stack == [Opened(frame)];
    CollectOne(frame, node);
    assert [] + [node] == [node] && st.stack[..0] == [];
  }

  /** A closing token closes whatever is open, of whichever kind it says it is. */
  lemma AnyClosingCloses(a: Token, bracket: Bracket)
    requires Operand(a)
    ensures Parse([OpenTok(ParenBracket, "("), a, CloseTok(bracket)]) == Ok(Node(a))
  {
    hide Parse, Rest, Finish, Operand, Unwind, Feed, Unrepaired;
    var t, close := OpenTok(ParenBracket, "("), CloseTok(bracket);
    FirstFeeds(a);
    CloseIsUnrepaired(bracket);
    assert Unrepaired(t) by { ParenIsUnrepaired(t.value); }
    Begin([t, a, close]);
    assert Plains([t, a, close]) == [Plain(t)] + ([Plain(a)] + ([Plain(close)] + []));
    InsideFeeds(START, t);
    Step(START, Plain(t), [Plain(a)] + ([Plain(close)] + []));
    var inside := Inside(START, t);
    OperandFeeds(inside, a);
    Step(inside, Plain(a), [Plain(close)] + []);
    var one := State(inside.out + [Node(a)], inside.stack);
    OneCloses(one, Node(a), bracket);
    Step(one, Plain(close), []);
    NoItems(State([Node(a)], []));
    NothingPending([Node(a)]);
  }

  // ---------- calls, and the one that stands for a range ----------

  lemma SepIsUnrepaired(row: bool)
    ensures Unrepaired(SepTok(row))
  {
  }

  lemma {:induction false} ListedPlain(args: seq<Option<Token>>, rows: seq<bool>)
    requires |args| == |rows| + 1 && Operands(args)
    ensures forall t :: t in Listed(args, rows) ==> t != WhiteTok && Unrepaired(t)
    decreases |args|
  {
    hide Operand, Unrepaired;
    assert forall t :: t in ArgTokens(args[0]) ==> t != WhiteTok && Unrepaired(t) by {
      if args[0].Some? { FirstFeeds(args[0].value); }
    }
    if rows != [] {
      var rest := args[1..];
      assert Operands(rest) by {
        assert forall i :: 0 <= i < |rest| ==> rest[i] == args[i + 1];
      }
      assert Unrepaired(SepTok(rows[0])) by { SepIsUnrepaired(rows[0]); }
      ListedPlain(rest, rows[1..]);
    }
  }

  lemma CallCloses(name: string, args: seq<Option<Token>>, rows: seq<bool>, start: nat)
    requires |args| == |rows| + 1 && Operands(args) && args != [None]
    ensures var span := StaticRange(name, Nodes(args));
      CloseFrame(FillFrame(Frame(FuncBracket, name, [], start, [], false), Slots(args), rows))
        == Ok(if span.Some? then span.value else Op(Func, name, Nodes(args), 0))
  {
    hide FillFrame, StaticRange, Operand, SlotTrees;
    FilledFrame(Frame(FuncBracket, name, [], start, [], false), Slots(args), rows);
    SlotTreesAre(args);
    assert [] + SlotTrees(Slots(args)) == Nodes(args);
    assert |args| == 1 ==> args == [args[0]];
    assert |args| == 1 ==> Nodes(args)[0] == Node(args[0].value);
  }

  lemma CallFrame(value: string)
    ensures Inside(START, OpenTok(FuncBracket, value))
      == State([], [] + [Opened(Frame(FuncBracket, FuncName(value), [], 0, [], false))])
  {
  }

  lemma CallItems(value: string, args: seq<Option<Token>>, rows: seq<bool>)
    requires |args| == |rows| + 1 && Operands(args) && Upper(value) != ":INDEX("
    ensures var raw := [OpenTok(FuncBracket, value)] + Listed(args, rows) + [CloseTok(FuncBracket)];
      Parse(raw) == Rest(START, [Plain(OpenTok(FuncBracket, value))]
        + (ListItems(Slots(args), rows) + [Plain(CloseTok(FuncBracket))]))
  {
    hide Parse, Rest, Operands, Listed, ListItems;
    var raw := [OpenTok(FuncBracket, value)] + Listed(args, rows) + [CloseTok(FuncBracket)];
    ListedPlain(args, rows);
    ListedVerbatim(args, rows);
    forall i | 0 <= i < |raw| ensures raw[i] != WhiteTok && Unrepaired(raw[i]) {
      if 0 < i <= |Listed(args, rows)| { assert raw[i] in Listed(args, rows); }
    }
    Begin(raw);
    assert Plains(raw) == [Plain(OpenTok(FuncBracket, value))]
        + (ListItems(Slots(args), rows) + [Plain(CloseTok(FuncBracket))]);
  }

  lemma CallReads(value: string, args: seq<Option<Token>>, rows: seq<bool>)
    requires |args| == |rows| + 1 && Operands(args) && args != [None] && Upper(value) != ":INDEX("
    ensures var span := StaticRange(FuncName(value), Nodes(args));
      Parse([OpenTok(FuncBracket, value)] + Listed(args, rows) + [CloseTok(FuncBracket)])
        == Ok(if span.Some? then span.value else Op(Func, FuncName(value), Nodes(args), 0))
  {
    hide Parse, Finish, Feed, Operands, Listed, ListItems, StaticRange, FuncName, Upper, FillFrame, CloseFrame, FeedAll,
      Inside, SlotsDerive;
    var items := ListItems(Slots(args), rows) + [Plain(CloseTok(FuncBracket))];
    var name := FuncName(value);
    var frame := Frame(FuncBracket, name, [], 0, [], false);
    CallItems(value, args, rows);
    InsideFeeds(START, OpenTok(FuncBracket, value));
    CallFrame(value);
    Step(START, Plain(OpenTok(FuncBracket, value)), items);
    SlotsAreDerived(args);
    FeedSlots([], [], frame, Slots(args), rows, FuncBracket);
    CallCloses(name, args, rows, 0);
    var node := CloseFrame(FillFrame(frame, Slots(args), rows)).value;
    assert [] + [node] == [node];
    NothingPending([node]);
  }

  /** Every call keeps its arguments in their places, absent ones included; only a call that joins
      a cell to an OFFSET may stand for a range instead. */
  lemma Calls(value: string, args: seq<Option<Token>>, rows: seq<bool>)
    requires |args| == |rows| + 1 && Operands(args) && args != [None] && Upper(value) != ":INDEX("
    ensures var span := StaticRange(FuncName(value), Nodes(args));
      Parse([OpenTok(FuncBracket, value)] + Listed(args, rows) + [CloseTok(FuncBracket)])
        == Ok(if span.Some? then span.value else Op(Func, FuncName(value), Nodes(args), 0))
  {
    hide *;
    CallReads(value, args, rows);
  }

  /** The integer a number literal stands for, with or without one sign before it. */
  lemma IntegerIs(t: Token, sign: string)
    ensures var value := SignedInteger(Const(t));
      value.Some? <==>
        && t.ConstTok? && t.kind == NumberLiteral && t.number.Some?
        && t.number.value == t.number.value.Floor as real && -1048576.0 <= t.number.value <= 1048576.0
    ensures var value := SignedInteger(Const(t));
      && (value.Some? ==> value.value as real == t.number.value)
      && SignedInteger(Op(Prefix, "-", [Const(t)], 0)) == (if value.Some? then Some(-value.value) else None)
      && SignedInteger(Op(Prefix, "+", [Const(t)], 0)) == value
      && (sign !in {"+", "-"} ==> SignedInteger(Op(Prefix, sign, [Const(t)], 0)) == None)
  {
  }

  lemma AddressIsNotEmpty(s: string)
    requires CellAddress(s, false).Some?
    ensures s != ""
  {
  }

  /** A cell joined to an OFFSET is a range exactly when the three arguments are a cell and two
      integers, and the joined cell, the given cell and the cell moved by the integers are all on the
      sheet, which has 1048576 rows and 16384 columns. */
  lemma OffsetIsRange(left: string, args: seq<Ast>)
    requires CellAddress(left, false).Some?
    ensures StaticRange(left + ":OFFSET", args) in
      {None, Some(Op(Infix, ":", [Ref(left), Op(Func, "OFFSET", args, 0)], 0))}
    ensures StaticRange(left + ":OFFSET", args).Some? <==>
      && |args| == 3 && args[0].Ref? && CellAddress(args[0].name, true).Some?
      && SignedInteger(args[1]).Some? && SignedInteger(args[2]).Some?
      && var (col, row) := CellAddress(left, false).value;
        var (fromCol, fromRow) := CellAddress(args[0].name, true).value;
        var (toCol, toRow) := (fromCol + SignedInteger(args[2]).value, fromRow + SignedInteger(args[1]).value);
        && 1 <= row <= 1048576 && 1 <= col <= 16384
        && 1 <= fromRow <= 1048576 && 1 <= fromCol <= 16384
        && 1 <= toRow <= 1048576 && 1 <= toCol <= 16384
  {
    AddressIsNotEmpty(left);
    hide CellAddress, SignedInteger;
    var name := left + ":OFFSET";
    assert name[|name| - 7..] == ":OFFSET" && name[..|name| - 7] == left;
  }

  /** No other call is one. */
  lemma OnlyOffsetIsRange(name: string, args: seq<Ast>)
    requires StaticRange(name, args).Some?
    ensures |name| > 7 && name[|name| - 7..] == ":OFFSET" && CellAddress(name[..|name| - 7], false).Some?
  {
    hide CellAddress, SignedInteger;
  }

  lemma WithoutDollar(s: string, fixed: bool)
    requires s != "" && s[0] != '$'
    ensures Undollar((if fixed then "$" else "") + s) == s
  {
    assert ("$" + s)[1..] == s && "" + s == s;
  }

  lemma LettersEnd(s: string, letters: string, rest: string, lower: bool)
    requires 1 <= |letters| <= 3 && forall i :: 0 <= i < |letters| ==> 'A' <= letters[i] <= 'Z'
    requires rest != "" && !IsLetter(rest[0], true) && Undollar(rest) != "" && Undollar(rest)[0] != '0'
    requires forall i :: 0 <= i < |Undollar(rest)| ==> IsDigit(Undollar(rest)[i])
    requires Undollar(s) == letters + rest
    ensures CellAddress(s, lower) == Some((LettersValue(letters), DigitsValue(Undollar(rest))))
  {
    hide LettersValue, DigitsValue;
    var t := letters + rest;
    assert forall i :: 0 <= i < |letters| ==> t[i] == letters[i];
    assert t[|letters|] == rest[0];
    assert t[..|letters|] == letters && t[|letters|..] == rest;
  }

  /** A cell's address: up to three letters, counted in base twenty-six from one, and a number with
      no leading nought, either of them behind a dollar sign. */
  lemma AddressIs(letters: string, digits: string, lower: bool, fixedCol: bool, fixedRow: bool)
    requires 1 <= |letters| <= 3 && forall i :: 0 <= i < |letters| ==> 'A' <= letters[i] <= 'Z'
    requires digits != "" && digits[0] != '0' && forall i :: 0 <= i < |digits| ==> '0' <= digits[i] <= '9'
    ensures var s := (if fixedCol then "$" else "") + (letters + ((if fixedRow then "$" else "") + digits));
      CellAddress(s, lower) == Some((LettersValue(letters), DigitsValue(digits)))
  {
    hide LettersValue, DigitsValue, CellAddress;
    var rest := (if fixedRow then "$" else "") + digits;
    WithoutDollar(digits, fixedRow);
    assert forall i :: 0 <= i < |digits| ==> IsDigit(digits[i]);
    assert !IsLetter(rest[0], true);
    WithoutDollar(letters + rest, fixedCol);
    LettersEnd((if fixedCol then "$" else "") + (letters + rest), letters, rest, lower);
  }

  /** Columns run A to Z, AA to ZZ and AAA onwards; the last of the sheet is XFD. */
  lemma ColumnsCount(c: char, letters: string)
    requires 'A' <= c <= 'Z' && forall i :: 0 <= i < |letters| ==> 'A' <= letters[i] <= 'Z'
    ensures LettersValue([c]) == c as int - 64
    ensures LettersValue(letters + [c]) == 26 * LettersValue(letters) + c as int - 64
    ensures LettersValue("XFD") == 16384
  {
    assert (letters + [c])[..|letters|] == letters;
    assert [c][..0] == "";
    assert "XFD"[..2] == "XF" && "XF"[..1] == "X" && "X"[..0] == "";
    assert LettersValue("X") == 24;
    assert LettersValue("XF") == 630;
  }

  lemma RowsCountUp(c: char, digits: string)
    requires '0' <= c <= '9' && forall i :: 0 <= i < |digits| ==> '0' <= digits[i] <= '9'
    ensures DigitsValue([c]) == c as int - 48
    ensures DigitsValue(digits + [c]) == 10 * DigitsValue(digits) + c as int - 48
  {
    assert (digits + [c])[..|digits|] == digits;
    assert [c][..0] == "";
  }

  // ---------- the repair and the white space ----------

  lemma {:induction false} RepairConcat(x: seq<Token>, y: seq<Token>)
    ensures Repair(x + y) == Repair(x) + Repair(y)
    decreases |x|
  {
    hide RepairOne;
    if x == [] {
      assert x + y == y;
    } else {
      assert (x + y)[1..] == x[1..] + y && (x + y)[0] == x[0];
      RepairConcat(x[1..], y);
      assert RepairOne(x[0]) + (Repair(x[1..]) + Repair(y)) == RepairOne(x[0]) + Repair(x[1..]) + Repair(y);
    }
  }

  /** Token by token, a colon that arrived as an operand or glued to INDEX becomes an operator, and
      every other token stays as it is. */
  lemma RepairIs(t: Token, rest: seq<Token>)
    ensures Repair([]) == []
    ensures Repair([t] + rest) == (
      if t == RangeTok(":") then [InfixTok(":")]
      else if t.OpenTok? && t.bracket == FuncBracket && Upper(t.value) == ":INDEX("
        then [InfixTok(":"), OpenTok(FuncBracket, "INDEX(")]
      else [t]) + Repair(rest)
  {
    assert ([t] + rest)[1..] == rest;
  }

  function Blanks(n: nat): (r: seq<Token>)
    ensures |r| == n && forall i :: 0 <= i < n ==> r[i] == WhiteTok
  {
    seq(n, _ => WhiteTok)
  }

  lemma {:induction false} SolidAfter(n: nat, t: Token, rest: seq<Token>)
    requires t != WhiteTok
    ensures NextSolid(Blanks(n) + ([t] + rest)) == Some(t)
  {
    var raw := Blanks(n) + ([t] + rest);
    if n == 0 {
      assert raw == [t] + rest;
    } else {
      assert raw == [WhiteTok] + (Blanks(n - 1) + ([t] + rest));
      assert raw[1..] == Blanks(n - 1) + ([t] + rest);
      SolidAfter(n - 1, t, rest);
    }
  }

  lemma {:induction false} SpaceRun(prev: Option<Token>, n: nat, t: Token, rest: seq<Token>)
    requires t != WhiteTok
    ensures NormaliseFrom(prev, Blanks(n) + ([t] + rest))
      == (if n > 0 && PrevEndsValue(prev) && StartsValue(t) then [Intersect] else []) + NormaliseFrom(None, [t] + rest)
    decreases n
  {
    assert !PrevEndsValue(Some(WhiteTok));
    hide StartsValue, NextSolid, PrevEndsValue;
    var raw := Blanks(n) + ([t] + rest);
    if n == 0 {
      assert raw == [t] + rest;
      assert ([t] + rest)[1..] == rest;
    } else {
      assert raw == [WhiteTok] + (Blanks(n - 1) + ([t] + rest));
      assert raw[1..] == Blanks(n - 1) + ([t] + rest);
      SolidAfter(n - 1, t, rest);
      SpaceRun(prev, n - 1, t, rest);
      SpaceRun(Some(WhiteTok), n - 1, t, rest);
    }
  }

  /** White space counts between the end of a value and the start of one, once however wide, and
      nowhere else. */
  lemma SpaceBetween(prev: Option<Token>, s: Token, n: nat, t: Token, rest: seq<Token>)
    requires s != WhiteTok && t != WhiteTok
    ensures NormaliseFrom(prev, [s] + (Blanks(n) + ([t] + rest)))
      == [Plain(s)]
        + (if && n > 0
              && (s.RangeTok? || s.ConstTok? || s.CloseTok? || s.PostfixTok?)
              && (t.RangeTok? || t.ConstTok? || t.OpenTok? || t.PrefixTok?)
            then [Intersect] else [])
        + NormaliseFrom(None, [t] + rest)
  {
    var tail := Blanks(n) + ([t] + rest);
    assert ([s] + tail)[1..] == tail;
    SpaceRun(Some(s), n, t, rest);
  }

  lemma {:induction false} NothingSolid(n: nat)
    ensures NextSolid(Blanks(n)) == None
  {
    if n > 0 {
      assert Blanks(n)[1..] == Blanks(n - 1);
      NothingSolid(n - 1);
    }
  }

  /** White space before the first token and after the last is dropped. */
  lemma {:induction false} SpaceAround(prev: Option<Token>, n: nat, t: Token, rest: seq<Token>)
    requires t != WhiteTok
    ensures Normalise(Blanks(n) + ([t] + rest)) == Normalise([t] + rest)
    ensures NormaliseFrom(prev, Blanks(n)) == []
    decreases n
  {
    SpaceRun(None, n, t, rest);
    NothingSolid(n);
    if n > 0 {
      assert Blanks(n)[1..] == Blanks(n - 1);
      SpaceAround(prev, n - 1, t, rest);
      NothingSolid(n - 1);
    }
  }
}
