/** White space: any amount of it around the tokens of a sentence changes nothing, except that
    between two values it is the intersection operator. */
module FormulaSpacing {
  import opened Options
  import opened FormulaTokens
  import opened FormulaParser
  import opened FormulaGrammar

  /** raw is items with any white space added; an intersection needs at least one. */
  ghost predicate Spells(raw: seq<Token>, items: seq<Item>)
    decreases |raw|
  {
    if raw == [] then items == []
    else if raw[0] != WhiteTok then items != [] && items[0] == Plain(raw[0]) && Spells(raw[1..], items[1..])
    else Spells(raw[1..], items) || (items != [] && items[0] == Intersect && Spells(raw[1..], items[1..]))
  }

  predicate Ends(item: Item) { item.Plain? && EndsValue(item.token) }

  predicate Starts(item: Item) { item.Plain? && StartsValue(item.token) }

  predicate Solid(item: Item) { item.Plain? ==> item.token != WhiteTok }

  /** Neighbours: no two values meet, and an intersection stands between two values. */
  predicate Fits(a: Item, b: Item) {
    !(Ends(a) && Starts(b)) && (a == Intersect ==> Starts(b)) && (b == Intersect ==> Ends(a))
  }

  ghost predicate WellSpaced(items: seq<Item>) {
    && (forall i :: 0 <= i < |items| ==> Solid(items[i]))
    && (forall i :: 0 <= i < |items| - 1 ==> Fits(items[i], items[i + 1]))
  }

  lemma {:induction false} ExtraWhite(raw: seq<Token>, items: seq<Item>)
    requires items != [] && items[0] == Intersect && Spells(raw, items)
    ensures Spells(raw, items[1..])
    decreases |raw|
  {
    if Spells(raw[1..], items) {
      ExtraWhite(raw[1..], items);
    }
  }

  lemma {:induction false} NextSolidIs(raw: seq<Token>, items: seq<Item>)
    requires Spells(raw, items) && (items == [] || (items[0].Plain? && Solid(items[0])))
    ensures NextSolid(raw) == if items == [] then None else Some(items[0].token)
    decreases |raw|
  {
    if raw != [] && raw[0] == WhiteTok {
      NextSolidIs(raw[1..], items);
    }
  }

  /** How the token kept last relates to the items still to come. */
  ghost predicate Leads(prev: Option<Token>, items: seq<Item>) {
    items != [] ==>
      !(PrevEndsValue(prev) && Starts(items[0])) && (items[0] == Intersect ==> PrevEndsValue(prev))
  }

  function TokenOf(item: Item): (r: Token) { if item == Intersect then WhiteTok else item.token }

  lemma LeadsOn(items: seq<Item>)
    requires WellSpaced(items) && items != []
    ensures Leads(Some(TokenOf(items[0])), items[1..]) && WellSpaced(items[1..])
    ensures items[0] == Intersect ==> items[1..] == [] || Starts(items[1])
  {
    if |items| > 1 {
      assert Fits(items[0], items[0 + 1]);
    }
    forall i | 0 <= i < |items[1..]| - 1 ensures Fits(items[1..][i], items[1..][i + 1]) {
      assert Fits(items[i + 1], items[i + 1 + 1]);
    }
  }

  /** Normalising any spelling of well-spaced items gives the items back. */
  lemma {:induction false} NormaliseSpelling(prev: Option<Token>, raw: seq<Token>, items: seq<Item>)
    requires Spells(raw, items) && WellSpaced(items) && Leads(prev, items)
    requires items != [] ==> items[|items| - 1] != Intersect
    ensures NormaliseFrom(prev, raw) == items
    decreases |raw|
  {
    if raw == [] {
    } else if raw[0] != WhiteTok {
      LeadsOn(items);
      NormaliseSpelling(Some(raw[0]), raw[1..], items[1..]);
      assert items == [items[0]] + items[1..];
    } else if items != [] && items[0] == Intersect {
      if Spells(raw[1..], items) { ExtraWhite(raw[1..], items); }
      LeadsOn(items);
      NextSolidIs(raw[1..], items[1..]);
      NormaliseSpelling(Some(WhiteTok), raw[1..], items[1..]);
      assert items == [items[0]] + items[1..];
    } else {
      NextSolidIs(raw[1..], items);
      NormaliseSpelling(prev, raw[1..], items);
    }
  }

  // ---------- sentences are well spaced ----------

  ghost predicate Edges(items: seq<Item>) {
    items != [] && Starts(items[0]) && Ends(items[|items| - 1]) && WellSpaced(items)
  }

  lemma Join(a: seq<Item>, b: seq<Item>)
    requires WellSpaced(a) && WellSpaced(b) && (a != [] && b != [] ==> Fits(a[|a| - 1], b[0]))
    ensures WellSpaced(a + b)
  {
    forall i | 0 <= i < |a + b| - 1 ensures Fits((a + b)[i], (a + b)[i + 1]) {
      if i < |a| - 1 {
        assert Fits(a[i], a[i + 1]);
      } else if i >= |a| {
        assert Fits(b[i - |a|], b[i - |a| + 1]);
      }
    }
  }

  lemma Single(item: Item)
    requires Solid(item)
    ensures WellSpaced([item])
  {
  }

  lemma BinaryEdges(a: seq<Item>, op: Item, b: seq<Item>)
    requires Edges(a) && Edges(b) && WellSpaced([op]) && Fits(a[|a| - 1], op) && Fits(op, b[0])
    ensures Edges(a + [op] + b)
  {
    hide WellSpaced, Starts, Ends, Fits;
    Join(a, [op]);
    Join(a + [op], b);
  }

  lemma Parts(p: Phrase)
    requires Derivation(p)
    ensures match p
      case Leaf(token) => token.RangeTok? || token.ConstTok?
      case Bracketed(_, _, slots, breaks) => SlotsDerive(slots) && |breaks| == (if slots == [] then 0 else |slots| - 1)
      case Postfixed(inner, _) => Derivation(inner)
      case Prefixed(_, inner) => Derivation(inner)
      case Binary(_, left, right) => Derivation(left) && Derivation(right)
  {
  }

  /** A list between brackets: well spaced, neither ending nor starting in the middle of an operator. */
  lemma {:induction false} ListEdges(slots: seq<Option<Phrase>>, breaks: seq<bool>)
    requires SlotsDerive(slots) && |breaks| == (if slots == [] then 0 else |slots| - 1)
    ensures WellSpaced(ListItems(slots, breaks))
    ensures var list := ListItems(slots, breaks); list != [] ==> list[0] != Intersect && !list[|list| - 1].Intersect?
    ensures var list := ListItems(slots, breaks); list != [] ==> (Starts(list[0]) || list[0].token.SepTok?)
    ensures var list := ListItems(slots, breaks); list != [] ==> !Starts(list[|list| - 1]) || Ends(list[|list| - 1])
    decreases slots, 2
  {
    if slots != [] {
      hide Derivation, Items;
      assert slots[0] in slots;
      SlotEdges(slots[0]);
      if |slots| > 1 {
        var first, sep, rest := SlotItems(slots[0]), Plain(SepTok(breaks[0])), ListItems(slots[1..], breaks[1..]);
        ListEdges(slots[1..], breaks[1..]);
        Single(sep);
        Join(first, [sep]);
        Join(first + [sep], rest);
        assert ListItems(slots, breaks) == first + [sep] + rest;
      }
    }
  }

  lemma {:induction false} PhraseEdges(p: Phrase)
    requires Derivation(p)
    ensures Edges(Items(p))
    decreases p, 0
  {
    hide Derivation, OperandsFit, ListFits;
    Parts(p);
    match p
    case Leaf(token) => Single(Plain(token));
    case Bracketed(bracket, value, slots, breaks) =>
      ListEdges(slots, breaks);
      var open, close, list := Plain(OpenTok(bracket, value)), Plain(CloseTok(bracket)), ListItems(slots, breaks);
      Single(open);
      Single(close);
      Join([open], list);
      Join([open] + list, [close]);
    case Postfixed(inner, op) =>
      PhraseEdges(inner);
      Single(Plain(PostfixTok(op)));
      Join(Items(inner), [Plain(PostfixTok(op))]);
    case Prefixed(op, inner) =>
      PhraseEdges(inner);
      Single(Plain(PrefixTok(op)));
      Join([Plain(PrefixTok(op))], Items(inner));
    case Binary(op, left, right) =>
      PhraseEdges(left);
      PhraseEdges(right);
      Single(InfixItem(op));
      BinaryEdges(Items(left), InfixItem(op), Items(right));
      assert Items(p) == Items(left) + [InfixItem(op)] + Items(right);
  }

  lemma SlotEdges(slot: Option<Phrase>)
    requires slot.Some? ==> Derivation(slot.value)
    ensures SlotItems(slot) != [] ==> Edges(SlotItems(slot))
    ensures WellSpaced(SlotItems(slot))
    decreases slot, 1
  {
    if slot.Some? { PhraseEdges(slot.value); }
  }

  // ---------- the repair leaves sentences alone ----------

  ghost predicate Unrepaired(t: Token) {
    t != RangeTok(":") && (t.OpenTok? && t.bracket == FuncBracket ==> Upper(t.value) != ":INDEX(")
  }

  lemma {:induction false} RepairNothing(raw: seq<Token>)
    requires forall i :: 0 <= i < |raw| ==> Unrepaired(raw[i])
    ensures Repair(raw) == raw
  {
    if raw != [] {
      hide Upper;
      assert forall i :: 0 <= i < |raw[1..]| ==> raw[1..][i] == raw[i + 1];
      RepairNothing(raw[1..]);
    }
  }

  ghost predicate Clean(items: seq<Item>) {
    forall i :: 0 <= i < |items| && items[i].Plain? ==> Unrepaired(items[i].token)
  }

  lemma SpellsStep(raw: seq<Token>, items: seq<Item>) returns (rest: seq<Item>)
    requires raw != [] && Spells(raw, items) && Clean(items)
    ensures Spells(raw[1..], rest) && Unrepaired(raw[0]) && (rest == items || (items != [] && rest == items[1..]))
  {
    if raw[0] != WhiteTok {
      rest := items[1..];
    } else if Spells(raw[1..], items) {
      rest := items;
    } else {
      rest := items[1..];
    }
  }

  lemma {:induction false} SpellingClean(raw: seq<Token>, items: seq<Item>)
    requires Spells(raw, items) && Clean(items)
    ensures forall i :: 0 <= i < |raw| ==> Unrepaired(raw[i])
    decreases |raw|
  {
    if raw != [] {
      hide Unrepaired, Spells;
      var rest: seq<Item> := SpellsStep(raw, items);
      assert Clean(rest);
      SpellingClean(raw[1..], rest);
      assert forall i :: 0 < i < |raw| ==> raw[i] == raw[1..][i - 1];
    }
  }

  lemma {:induction false} ListClean(slots: seq<Option<Phrase>>, breaks: seq<bool>)
    requires SlotsDerive(slots) && |breaks| == (if slots == [] then 0 else |slots| - 1)
    ensures Clean(ListItems(slots, breaks))
    decreases slots, 2
  {
    if slots != [] {
      hide Derivation, Items, Upper;
      assert slots[0] in slots;
      SlotClean(slots[0]);
      if |slots| > 1 { ListClean(slots[1..], breaks[1..]); }
    }
  }

  lemma {:induction false} PhraseClean(p: Phrase)
    requires Derivation(p)
    ensures Clean(Items(p))
    decreases p, 0
  {
    hide Upper, IsCellOffset, FuncName, OperandsFit;
    match p
    case Leaf(token) =>
    case Bracketed(bracket, value, slots, breaks) => ListClean(slots, breaks);
    case Postfixed(inner, op) => PhraseClean(inner);
    case Prefixed(op, inner) => PhraseClean(inner);
    case Binary(op, left, right) =>
      PhraseClean(left);
      PhraseClean(right);
  }

  lemma SlotClean(slot: Option<Phrase>)
    requires slot.Some? ==> Derivation(slot.value)
    ensures Clean(SlotItems(slot))
    decreases slot, 1
  {
    if slot.Some? { PhraseClean(slot.value); }
  }

  /** Every sentence of the grammar, under any spacing, parses to the one tree of its derivation. */
  lemma SentencesParse(p: Phrase, raw: seq<Token>)
    requires Derivation(p) && Spells(raw, Items(p))
    ensures Parse(raw) == Ok(Tree(p))
  {
    hide Derivation, Items, Tree, ParseItems, WellSpaced, Clean, Spells, NormaliseFrom, Repair;
    PhraseEdges(p);
    PhraseClean(p);
    SpellingClean(raw, Items(p));
    RepairNothing(raw);
    NormaliseSpelling(None, raw, Items(p));
    ItemsParse(p);
  }
}
