/** The fully bracketed rendering of a tree, as text and as tokens, and the proof that parsing it
    gives the tree back. */
module FormulaRendering {
  import opened Options
  import opened FormulaTokens
  import opened FormulaParser
  import opened FormulaGrammar
  import opened FormulaSpacing

  /** Elements per row of an array literal. */
  function PerRow(n: nat, rows: nat): (r: nat) {
    var per := n / (if rows == 0 then 1 else rows);
    if per == 0 then 1 else per
  }

  predicate Rectangular(args: seq<Ast>, rows: nat) {
    rows > 0 && if args == [] then rows == 1 else args[0] != Missing && |args| == rows * PerRow(|args|, rows)
  }

  /** Trees a formula can denote: known operators with their operands, calls under a name the
      tokenizer would give back, unions of two or more, rectangular arrays. */
  predicate Renderable(t: Ast)
    decreases t
  {
    match t
    case Ref(name) => name != ":"
    case Const(token) => token.ConstTok?
    case Missing => false
    case Op(kind, name, args, rows) =>
      && (forall i :: 0 <= i < |args| ==> args[i] == Missing || Renderable(args[i]))
      && match kind
         case Func => rows == 0 && args != [Missing] && CallName(name + "(") && FuncName(name + "(") == name
         case Infix => rows == 0 && InfixPrec(name).Some? && |args| == 2 && Missing !in args
         case Prefix => rows == 0 && |args| == 1 && Missing !in args
         case Postfix => rows == 0 && |args| == 1 && Missing !in args
         case Union => rows == 0 && name == "," && |args| > 1 && args[0] != Missing
         case Array => name == "{}" && Rectangular(args, rows)
  }

  // ---------- the rendering as a derivation ----------

  function NoBreaks(n: nat): (r: seq<bool>) { seq(if n == 0 then 0 else n - 1, _ => false) }

  /** A row ends after every per-th element. */
  function RowBreaks(n: nat, rows: nat): (r: seq<bool>) {
    var per := PerRow(n, rows);
    seq(if n == 0 then 0 else n - 1, i requires 0 <= i => (i + 1) % per == 0)
  }

  function Grouped(p: Phrase): (r: Phrase) { Bracketed(ParenBracket, "(", [Some(p)], []) }

  function Embed(t: Ast): (r: Phrase)
    decreases t, 0
  {
    match t
    case Ref(name) => Leaf(RangeTok(name))
    case Const(token) => Leaf(token)
    case Missing => Leaf(RangeTok(""))
    case Op(Func, name, args, _) => Bracketed(FuncBracket, name + "(", EmbedAll(args), NoBreaks(|args|))
    case Op(Union, _, args, _) => Bracketed(ParenBracket, "(", EmbedAll(args), NoBreaks(|args|))
    case Op(Array, _, args, rows) => Bracketed(ArrayBracket, "{", EmbedAll(args), RowBreaks(|args|, rows))
    case Op(Prefix, name, args, _) =>
      if args == [] then Leaf(RangeTok("")) else Grouped(Prefixed(name, Embed(args[0])))
    case Op(Postfix, name, args, _) =>
      if args == [] then Leaf(RangeTok("")) else Grouped(Postfixed(Embed(args[0]), name))
    case Op(Infix, name, args, _) =>
      if |args| < 2 then Leaf(RangeTok("")) else Grouped(Binary(name, Embed(args[0]), Embed(args[1])))
  }

  function EmbedAll(args: seq<Ast>): (r: seq<Option<Phrase>>)
    ensures |r| == |args|
    decreases args, 1
  {
    if args == [] then []
    else [if args[0] == Missing then None else Some(Embed(args[0]))] + EmbedAll(args[1..])
  }

  lemma {:induction false} EmbedLevel(t: Ast)
    ensures Level(Embed(t)) == PRIMARY
  {
  }

  // ---------- rows ----------

  lemma {:induction false} CountNone(n: nat)
    ensures Count(seq(n, _ => false)) == 0
  {
    if n > 0 {
      assert seq(n, _ => false)[1..] == seq(n - 1, _ => false);
      CountNone(n - 1);
    }
  }

  lemma Apart(low: nat, high: nat, b: nat)
    requires low < high
    ensures high * b >= low * b + b
  {
    assert high * b == (high - low) * b + low * b;
    assert (high - low - 1) * b >= 0;
  }

  lemma DivUnique(a: nat, b: nat, q: nat, r: nat)
    requires b > 0 && a == q * b + r && r < b
    ensures a / b == q && a % b == r
  {
    var q', r' := a / b, a % b;
    assert a == q' * b + r';
    if q' < q {
      Apart(q', q, b);
    } else if q < q' {
      Apart(q, q', b);
    }
  }

  lemma StepDivides(k: nat, per: nat)
    requires per > 0
    ensures (k + 1) / per == k / per + if (k + 1) % per == 0 then 1 else 0
  {
    var q, r := k / per, k % per;
    assert k == q * per + r;
    if r + 1 == per {
      assert k + 1 == (q + 1) * per;
      DivUnique(k + 1, per, q + 1, 0);
    } else {
      DivUnique(k + 1, per, q, r + 1);
    }
  }

  /** Breaks after position k, k counted within a row. */
  lemma {:induction false} CountRows(n: nat, per: nat, k: nat)
    requires per > 0
    ensures Count(seq(n, i requires 0 <= i => (k + i + 1) % per == 0)) == (k + n) / per - k / per
  {
    if n > 0 {
      var breaks := seq(n, i requires 0 <= i => (k + i + 1) % per == 0);
      assert breaks[1..] == seq(n - 1, i requires 0 <= i => (k + 1 + i + 1) % per == 0);
      CountRows(n - 1, per, k + 1);
      StepDivides(k, per);
    }
  }

  /** A rectangular array has one break fewer than it has rows. */
  lemma RowBreaksCount(n: nat, rows: nat)
    requires n > 0 && rows > 0 && n == rows * PerRow(n, rows)
    ensures Count(RowBreaks(n, rows)) == rows - 1
  {
    var per := PerRow(n, rows);
    assert RowBreaks(n, rows) == seq(n - 1, i requires 0 <= i => (0 + i + 1) % per == 0);
    CountRows(n - 1, per, 0);
    assert n - 1 == (rows - 1) * per + (per - 1);
    DivUnique(n - 1, per, rows - 1, per - 1);
    DivUnique(0, per, 0, 0);
  }

  // ---------- the derivation is one, and it means the tree ----------

  lemma {:induction false} EmbedAllAt(args: seq<Ast>, i: nat)
    requires i < |args|
    ensures EmbedAll(args)[i] == if args[i] == Missing then None else Some(Embed(args[i]))
  {
    hide Embed;
    if i > 0 { EmbedAllAt(args[1..], i - 1); }
  }

  lemma BreaksLength(n: nat, rows: nat)
    ensures |RowBreaks(n, rows)| == if n == 0 then 0 else n - 1
  {
  }

  lemma NoRowsCount(rows: nat)
    ensures Count(RowBreaks(0, rows)) == 0
  {
  }

  lemma {:induction false} ArgsDerive(args: seq<Ast>)
    requires forall i :: 0 <= i < |args| ==> args[i] == Missing || Renderable(args[i])
    ensures SlotsDerive(EmbedAll(args)) && SlotTrees(EmbedAll(args)) == args
    decreases args, 1
  {
    if args != [] {
      hide Renderable, Embed, Derivation, Tree;
      assert args[0] in args;
      ArgDerives(args[0]);
      ArgsDerive(args[1..]);
      var all := EmbedAll(args);
      assert all[1..] == EmbedAll(args[1..]);
      forall i | 0 <= i < |all| && all[i].Some? ensures Derivation(all[i].value) {
        assert i > 0 ==> all[i] == EmbedAll(args[1..])[i - 1];
      }
      assert SlotTrees(all) == [SlotTree(all[0])] + SlotTrees(all[1..]);
      assert args == [args[0]] + args[1..];
    }
  }

  lemma ListDerives(t: Ast)
    requires Renderable(t) && t.Op? && t.kind in {Func, Union, Array}
    ensures Derivation(Embed(t)) && Tree(Embed(t)) == t
    decreases t, -1
  {
    hide CallName, FuncName, SlotTrees, EmbedAll, RowBreaks, PerRow, Count;
    ArgsDerive(t.args);
    if t.args != [] { EmbedAllAt(t.args, 0); }
    if |t.args| == 1 { assert t.args == [t.args[0]]; }
    if t.kind == Array {
      BreaksLength(|t.args|, t.rows);
      if t.args != [] { RowBreaksCount(|t.args|, t.rows); } else { NoRowsCount(t.rows); }
    }
  }

  lemma PrecBelowPrimary(op: string)
    ensures InfixPrec(op).Some? ==> InfixPrec(op).value < PRIMARY
  {
  }

  lemma OperatorDerives(t: Ast)
    requires Renderable(t) && t.Op? && t.kind in {Infix, Prefix, Postfix}
    ensures Derivation(Embed(t)) && Tree(Embed(t)) == t
    decreases t, -1
  {
    hide InfixPrec;
    var first := t.args[0];
    assert first in t.args;
    ArgDerives(first);
    EmbedLevel(first);
    if t.kind == Infix {
      var second := t.args[1];
      assert second in t.args;
      ArgDerives(second);
      EmbedLevel(second);
      PrecBelowPrimary(t.name);
      assert t.args == [first, second];
    } else {
      assert t.args == [first];
    }
  }

  lemma {:induction false} EmbedDerives(t: Ast)
    requires Renderable(t)
    ensures Derivation(Embed(t)) && Tree(Embed(t)) == t
    decreases t, 0
  {
    match t
    case Ref(_) =>
    case Const(_) =>
    case Op(kind, name, args, rows) =>
      if kind == Func || kind == Union || kind == Array {
        ListDerives(t);
      } else {
        OperatorDerives(t);
      }
  }

  lemma ArgDerives(arg: Ast)
    requires arg == Missing || Renderable(arg)
    ensures var slot := if arg == Missing then None else Some(Embed(arg));
      (slot.Some? ==> Derivation(slot.value)) && SlotTree(slot) == arg
    decreases arg, 1
  {
    if arg != Missing { EmbedDerives(arg); }
  }

  // ---------- tokens ----------

  /** The tokens of some items, one space for each intersection. */
  function Raw(items: seq<Item>): (r: seq<Token>)
    ensures |r| == |items|
  {
    if items == [] then [] else [TokenOf(items[0])] + Raw(items[1..])
  }

  lemma {:induction false} RawSpells(items: seq<Item>)
    requires forall i :: 0 <= i < |items| ==> Solid(items[i])
    ensures Spells(Raw(items), items)
  {
    if items != [] {
      assert forall i :: 0 <= i < |items[1..]| ==> items[1..][i] == items[i + 1];
      RawSpells(items[1..]);
      assert Raw(items)[1..] == Raw(items[1..]);
    }
  }

  function RenderTokens(t: Ast): (r: seq<Token>) { Raw(Items(Embed(t))) }

  /** Parsing the fully bracketed rendering of a tree gives the tree back. */
  lemma RenderRoundTrip(t: Ast)
    requires Renderable(t)
    ensures Parse(RenderTokens(t)) == Ok(t)
  {
    hide Renderable, Embed, Items, Derivation, Tree, Spells;
    EmbedDerives(t);
    PhraseEdges(Embed(t));
    RawSpells(Items(Embed(t)));
    SentencesParse(Embed(t), RenderTokens(t));
  }

  // ---------- text ----------

  function Join(sep: string, parts: seq<string>): (r: string) {
    if parts == [] then "" else if |parts| == 1 then parts[0] else parts[0] + sep + Join(sep, parts[1..])
  }

  /** The rows of an array literal, each joined by commas. */
  function Chunks(parts: seq<string>, per: nat, rows: nat): (r: seq<string>) {
    if rows == 0 then []
    else
      var cut := if per <= |parts| then per else |parts|;
      [Join(",", parts[..cut])] + Chunks(parts[cut..], per, rows - 1)
  }

  function ConstText(t: Token): (r: string) { if t.ConstTok? || t.LiteralTok? then t.value else "" }

  function RenderAll(ts: seq<Ast>): (r: seq<string>)
    ensures |r| == |ts|
    decreases ts, 1
  {
    if ts == [] then [] else [Render(ts[0])] + RenderAll(ts[1..])
  }

  function Render(t: Ast): (r: string)
    decreases t, 0
  {
    match t
    case Ref(name) => name
    case Const(token) => ConstText(token)
    case Missing => ""
    case Op(Func, name, args, _) => name + "(" + Join(",", RenderAll(args)) + ")"
    case Op(Infix, name, args, _) => "(" + Join(name, RenderAll(args)) + ")"
    case Op(Prefix, name, args, _) => if args == [] then "" else "(" + name + Render(args[0]) + ")"
    case Op(Postfix, name, args, _) => if args == [] then "" else "(" + Render(args[0]) + name + ")"
    case Op(Union, _, args, _) => "(" + Join(",", RenderAll(args)) + ")"
    case Op(Array, _, args, rows) =>
      "{" + Join(";", Chunks(RenderAll(args), PerRow(|args|, rows), if rows == 0 then 1 else rows)) + "}"
  }

  const CUT := 200

  /** The text a record shows: what is too long ends in an ellipsis. */
  function Cut(text: string): (r: string)
    ensures |r| <= CUT
  {
    if |text| <= CUT then text else text[..CUT - 1] + ['\U{2026}']
  }

  function Shown(t: Ast): (r: string) { Cut(Render(t)) }

  function TokenText(t: Token): (r: string) {
    match t
    case RangeTok(value) => value
    case ConstTok(_, value, _) => value
    case LiteralTok(value) => value
    case OpenTok(_, value) => value
    case CloseTok(bracket) => if bracket == ArrayBracket then "}" else ")"
    case SepTok(row) => if row then ";" else ","
    case PrefixTok(value) => value
    case PostfixTok(value) => value
    case InfixTok(value) => value
    case WhiteTok => " "
    case OtherTok(value) => value
  }

  function Text(tokens: seq<Token>): (r: string) {
    if tokens == [] then "" else TokenText(tokens[0]) + Text(tokens[1..])
  }

  function ItemsText(items: seq<Item>): (r: string) { Text(Raw(items)) }

  lemma {:induction false} ItemsTextConcat(a: seq<Item>, b: seq<Item>)
    ensures ItemsText(a + b) == ItemsText(a) + ItemsText(b)
  {
    hide TokenText;
    if a == [] {
      assert a + b == b;
    } else {
      assert (a + b)[1..] == a[1..] + b;
      ItemsTextConcat(a[1..], b);
      assert Raw(a + b) == [TokenOf(a[0])] + Raw(a[1..] + b);
      assert Raw(a) == [TokenOf(a[0])] + Raw(a[1..]);
    }
  }

  lemma ItemText(item: Item)
    ensures ItemsText([item]) == TokenText(TokenOf(item))
  {
    hide TokenText;
    var t := TokenOf(item);
    assert [item][1..] == [] && [t][1..] == [];
    assert Raw([item]) == [t];
    assert Text([t]) == TokenText(t) + Text([]);
  }

  /** Parts joined by a semicolon where a row breaks and by a comma elsewhere. */
  function JoinBreaks(parts: seq<string>, breaks: seq<bool>): (r: string) {
    if parts == [] then ""
    else if |parts| == 1 || breaks == [] then parts[0]
    else parts[0] + (if breaks[0] then ";" else ",") + JoinBreaks(parts[1..], breaks[1..])
  }

  lemma {:induction false} JoinPlain(parts: seq<string>, breaks: seq<bool>)
    requires |breaks| >= |parts| - 1 && forall i :: 0 <= i < |parts| - 1 ==> !breaks[i]
    ensures JoinBreaks(parts, breaks) == Join(",", parts)
  {
    if |parts| > 1 { JoinPlain(parts[1..], breaks[1..]); }
  }

  lemma {:induction false} JoinSplit(a: seq<string>, b: seq<string>, breaks: seq<bool>)
    requires a != [] && b != [] && |breaks| == |a| + |b| - 1 && breaks[|a| - 1]
    ensures JoinBreaks(a + b, breaks) == JoinBreaks(a, breaks[..|a| - 1]) + ";" + JoinBreaks(b, breaks[|a|..])
  {
    if |a| == 1 {
      assert (a + b)[1..] == b;
    } else {
      assert (a + b)[1..] == a[1..] + b;
      assert breaks[1..][|a[1..]|..] == breaks[|a|..];
      assert breaks[1..][..|a[1..]| - 1] == breaks[..|a| - 1][1..];
      JoinSplit(a[1..], b, breaks[1..]);
    }
  }

  ghost predicate BreaksEvery(breaks: seq<bool>, per: nat)
    requires per > 0
  {
    forall i :: 0 <= i < |breaks| ==> (breaks[i] <==> (i + 1) % per == 0)
  }

  lemma SmallMod(i: nat, per: nat)
    requires 0 < i < per
    ensures i % per != 0
  {
    DivUnique(i, per, 0, i);
  }

  lemma SameMod(i: nat, j: nat, per: nat)
    requires per > 0 && i == j + per
    ensures i % per == j % per
  {
    var q, r := j / per, j % per;
    assert j == q * per + r;
    assert i == (q + 1) * per + r;
    DivUnique(i, per, q + 1, r);
  }

  lemma JoinOneRow(parts: seq<string>, breaks: seq<bool>, per: nat)
    requires per > 0 && |parts| == per && |breaks| == |parts| - 1 && BreaksEvery(breaks, per)
    ensures JoinBreaks(parts, breaks) == Join(";", Chunks(parts, per, 1))
  {
    forall i | 0 <= i < |breaks| ensures !breaks[i] { SmallMod(i + 1, per); }
    JoinPlain(parts, breaks);
    assert parts[..per] == parts;
    assert Chunks(parts, per, 1) == [Join(",", parts)];
  }

  /** The first row ends at a break, and the breaks after it are those of the other rows. */
  lemma FirstRow(breaks: seq<bool>, per: nat)
    requires per > 0 && |breaks| >= per && BreaksEvery(breaks, per)
    ensures breaks[per - 1] && (forall i :: 0 <= i < per - 1 ==> !breaks[i]) && BreaksEvery(breaks[per..], per)
  {
    SameMod(per, 0, per);
    forall i | 0 <= i < per - 1 ensures !breaks[i] { SmallMod(i + 1, per); }
    var rest := breaks[per..];
    forall i | 0 <= i < |rest| ensures rest[i] <==> (i + 1) % per == 0 { SameMod(i + 1 + per, i + 1, per); }
  }

  lemma {:induction false} JoinRows(parts: seq<string>, breaks: seq<bool>, per: nat, rows: nat)
    requires per > 0 && rows > 0 && |parts| == rows * per && |breaks| == |parts| - 1 && BreaksEvery(breaks, per)
    ensures JoinBreaks(parts, breaks) == Join(";", Chunks(parts, per, rows))
    decreases rows
  {
    if rows == 1 {
      JoinOneRow(parts, breaks, per);
    } else {
      assert |parts| == (rows - 1) * per + per;
      assert (rows - 1) * per >= per by { Apart(0, rows - 1, per); }
      hide BreaksEvery, JoinBreaks;
      var row, rest := parts[..per], parts[per..];
      assert parts == row + rest;
      FirstRow(breaks, per);
      JoinSplit(row, rest, breaks);
      JoinPlain(row, breaks[..per - 1]);
      JoinRows(rest, breaks[per..], per, rows - 1);
    }
  }

  lemma SepText(row: bool)
    ensures ItemsText([Plain(SepTok(row))]) == if row then ";" else ","
  {
    ItemText(Plain(SepTok(row)));
  }

  lemma {:induction false} SlotsText(args: seq<Ast>, breaks: seq<bool>)
    requires forall i :: 0 <= i < |args| ==> args[i] == Missing || Renderable(args[i])
    requires |breaks| == (if args == [] then 0 else |args| - 1)
    ensures ItemsText(ListItems(EmbedAll(args), breaks)) == JoinBreaks(RenderAll(args), breaks)
    decreases args, 1
  {
    if args != [] {
      hide Renderable, Embed, Items, Render, TokenText;
      assert args[0] in args;
      ArgText(args[0]);
      var slots := EmbedAll(args);
      assert slots[1..] == EmbedAll(args[1..]) && RenderAll(args)[1..] == RenderAll(args[1..]);
      if |args| > 1 {
        SlotsText(args[1..], breaks[1..]);
        var first, sep, rest := SlotItems(slots[0]), [Plain(SepTok(breaks[0]))], ListItems(slots[1..], breaks[1..]);
        assert ListItems(slots, breaks) == first + sep + rest;
        ItemsTextConcat(first + sep, rest);
        ItemsTextConcat(first, sep);
        SepText(breaks[0]);
      }
    }
  }

  lemma BracketText(bracket: Bracket, value: string, slots: seq<Option<Phrase>>, breaks: seq<bool>)
    ensures ItemsText(Items(Bracketed(bracket, value, slots, breaks)))
      == value + ItemsText(ListItems(slots, breaks)) + (if bracket == ArrayBracket then "}" else ")")
  {
    var open, close, list := Plain(OpenTok(bracket, value)), Plain(CloseTok(bracket)), ListItems(slots, breaks);
    ItemsTextConcat([open] + list, [close]);
    ItemsTextConcat([open], list);
    ItemText(open);
    ItemText(close);
  }

  lemma ListText(t: Ast)
    requires Renderable(t) && t.Op? && t.kind in {Func, Union, Array}
    ensures ItemsText(Items(Embed(t))) == Render(t)
    decreases t, -1
  {
    hide Items, CallName, FuncName, ItemsText, EmbedAll, RenderAll, ListItems;
    var n := |t.args|;
    var parts := RenderAll(t.args);
    if t.kind == Array {
      BreaksLength(n, t.rows);
      SlotsText(t.args, RowBreaks(n, t.rows));
      BracketText(ArrayBracket, "{", EmbedAll(t.args), RowBreaks(n, t.rows));
      if t.args == [] {
        assert Chunks(parts, PerRow(0, 1), 1) == [Join(",", [])];
      } else {
        JoinRows(parts, RowBreaks(n, t.rows), PerRow(n, t.rows), t.rows);
      }
    } else {
      SlotsText(t.args, NoBreaks(n));
      JoinPlain(parts, NoBreaks(n));
      if t.kind == Func {
        BracketText(FuncBracket, t.name + "(", EmbedAll(t.args), NoBreaks(n));
      } else {
        BracketText(ParenBracket, "(", EmbedAll(t.args), NoBreaks(n));
      }
    }
  }

  lemma PlainText(t: Token)
    requires t.PrefixTok? || t.PostfixTok?
    ensures ItemsText([Plain(t)]) == t.value
  {
    ItemText(Plain(t));
  }

  lemma GroupText(p: Phrase)
    ensures ItemsText(Items(Grouped(p))) == "(" + ItemsText(Items(p)) + ")"
  {
    hide Items, ItemsText;
    BracketText(ParenBracket, "(", [Some(p)], []);
    assert ListItems([Some(p)], []) == SlotItems(Some(p));
  }

  lemma OperatorItemText(op: string)
    ensures ItemsText([InfixItem(op)]) == op
  {
    ItemText(InfixItem(op));
  }

  lemma BinaryText(op: string, left: Phrase, right: Phrase)
    ensures ItemsText(Items(Binary(op, left, right))) == ItemsText(Items(left)) + op + ItemsText(Items(right))
  {
    hide ItemsText, TokenText;
    var a, o, b := Items(left), [InfixItem(op)], Items(right);
    ItemsTextConcat(a + o, b);
    ItemsTextConcat(a, o);
    OperatorItemText(op);
    assert Items(Binary(op, left, right)) == a + o + b;
  }

  lemma RenderTwo(a: Ast, b: Ast)
    ensures RenderAll([a, b]) == [Render(a), Render(b)]
  {
    hide Render;
    assert [a, b][1..] == [b] && [b][1..] == [];
  }

  lemma JoinTwo(op: string, a: string, b: string)
    ensures Join(op, [a, b]) == a + op + b
  {
    assert [a, b][1..] == [b];
  }

  lemma OperatorText(t: Ast)
    requires Renderable(t) && t.Op? && t.kind in {Infix, Prefix, Postfix}
    ensures ItemsText(Items(Embed(t))) == Render(t)
    decreases t, -1
  {
    hide InfixPrec, ItemsText, TokenText;
    var first := t.args[0];
    assert first in t.args;
    ArgText(first);
    if t.kind == Infix {
      var second := t.args[1];
      assert second in t.args;
      ArgText(second);
      GroupText(Binary(t.name, Embed(first), Embed(second)));
      BinaryText(t.name, Embed(first), Embed(second));
      assert t.args == [first, second];
      RenderTwo(first, second);
      JoinTwo(t.name, Render(first), Render(second));
    } else if t.kind == Prefix {
      GroupText(Prefixed(t.name, Embed(first)));
      ItemsTextConcat([Plain(PrefixTok(t.name))], Items(Embed(first)));
      PlainText(PrefixTok(t.name));
    } else {
      GroupText(Postfixed(Embed(first), t.name));
      ItemsTextConcat(Items(Embed(first)), [Plain(PostfixTok(t.name))]);
      PlainText(PostfixTok(t.name));
    }
  }

  /** The tokens of the rendering, written out, are the rendered text. */
  lemma {:induction false} RenderText(t: Ast)
    requires Renderable(t)
    ensures ItemsText(Items(Embed(t))) == Render(t)
    decreases t, 0
  {
    match t
    case Ref(_) => ItemText(Plain(RangeTok(t.name)));
    case Const(_) => ItemText(Plain(t.token));
    case Op(kind, name, args, rows) =>
      if kind == Func || kind == Union || kind == Array {
        ListText(t);
      } else {
        OperatorText(t);
      }
  }

  lemma ArgText(arg: Ast)
    requires arg == Missing || Renderable(arg)
    ensures ItemsText(SlotItems(if arg == Missing then None else Some(Embed(arg)))) == Render(arg)
    decreases arg, 1
  {
    if arg != Missing { RenderText(arg); }
  }
}
