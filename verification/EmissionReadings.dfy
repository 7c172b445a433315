/** What the walk records for given formulas, written out: every field of every node and edge. */
module EmissionReadings {
  import opened Options
  import opened FormulaTokens
  import opened FormulaRendering
  import opened FormulaEmission

  /** Each operator is shown by its name, a sign with a u before it, an array by its braces, a union by
      its comma and an intersection by a word. */
  lemma TagsAre(name: string)
    ensures Tag(Func, name) == name && Tag(Postfix, name) == name && Tag(Prefix, name) == "u" + name
    ensures Tag(Array, name) == "{}" && Tag(Union, name) == ","
    ensures Tag(Infix, " ") == "isect" && (name != " " ==> Tag(Infix, name) == name)
  {
  }

  /** Up to 200 characters of a text are shown as they are; of a longer one the first 199 and a mark. */
  lemma ShownIs(t: Ast)
    ensures Shown(t) == if |Render(t)| <= 200 then Render(t) else Render(t)[..199] + "\U{2026}"
  {
    hide Render;
  }

  /** An edge is left out exactly when a recorded one equals it in source, target, role, slot and
      reference text, all five; the operator and the span's text do not matter. */
  lemma EdgeIsAdded(edges: seq<EdgeRecord>, e: EdgeRecord)
    ensures AddEdge(edges, e) ==
      if exists d ::
          d in edges && d.source == e.source && d.target == e.target && d.role == e.role && d.slot == e.slot
          && d.ref == e.ref
      then edges else edges + [e]
  {
    forall i | 0 <= i < |edges| ensures edges[i] in edges {}
    if d :| d in edges && SameKey(d, e) {
      var i :| 0 <= i < |edges| && edges[i] == d;
    }
    forall d | d in edges ensures SameKey(d, e) <==>
      && d.source == e.source && d.target == e.target && d.role == e.role && d.slot == e.slot && d.ref == e.ref
    {
    }
  }

  // ---------- references ----------

  /** What stands after the last exclamation mark, all of it if there is none. */
  lemma {:induction false} AfterSheetIs(s: string)
    ensures |AfterSheet(s)| <= |s| && s[|s| - |AfterSheet(s)|..] == AfterSheet(s) && '!' !in AfterSheet(s)
    ensures |AfterSheet(s)| < |s| ==> s[|s| - |AfterSheet(s)| - 1] == '!'
  {
    if s != "" && s[|s| - 1] != '!' {
      var front, rest := s[..|s| - 1], AfterSheet(s[..|s| - 1]);
      AfterSheetIs(front);
      hide AfterSheet;
      assert s[|s| - |rest| - 1..] == front[|front| - |rest|..] + [s[|s| - 1]];
      if |rest| < |front| { assert s[|s| - |rest| - 2] == front[|front| - |rest| - 1]; }
    }
  }

  /** The reference reads as a span: it stands for several nodes, has a colon in its part after the
      sheet, or stands for a range first. */
  predicate Span(token: string, items: seq<FormulaEmission.Item>) {
    |items| > 1 || (|items| == 1 && (':' in AfterSheet(token) || (items[0].Whole? && items[0].isRange)))
  }

  function OriginsOf(items: seq<FormulaEmission.Item>, token: string, via: string): (r: seq<Origin>)
    requires forall i :: 0 <= i < |items| ==> items[i].Whole?
    ensures |r| == |items| && forall i :: 0 <= i < |items| ==> r[i] == Origin(Outer(items[i].id), token, via)
  {
    seq(|items|, i requires 0 <= i < |items| => Origin(Outer(items[i].id), token, via))
  }

  lemma {:induction false} ItemsAreOrigins(st: Settings, token: string, via: string, items: seq<FormulaEmission.Item>,
                                           log: Log)
    requires forall i :: 0 <= i < |items| ==> items[i].Whole?
    ensures EmitItems(st, token, via, items, log) == (log, OriginsOf(items, token, via))
    decreases |items|
  {
    if items != [] {
      ItemsAreOrigins(st, token, via, items[1..], log);
      hide OriginsOf;
      assert OriginsOf(items, token, via) == [OriginsOf(items, token, via)[0]] + OriginsOf(items[1..], token, via);
    } else {
      assert OriginsOf(items, token, via) == [];
    }
  }

  /** A reference to workbook nodes has one origin for each, with the reference's text and, if it
      reads as a span, that text as the span's; it adds no node. */
  lemma ReferenceOrigins(st: Settings, token: string, log: Log)
    requires forall i :: 0 <= i < |st.resolve(token)| ==> st.resolve(token)[i].Whole?
    ensures var items, (after, origins) := st.resolve(token), EmitRef(st, token, log);
      && after == log && |origins| == |items|
      && forall i :: 0 <= i < |items| ==>
        origins[i] == Origin(Outer(items[i].id), token, if Span(token, items) then token else "")
  {
    hide AfterSheet;
    var items := st.resolve(token);
    ItemsAreOrigins(st, token, Via(token, items), items, log);
    if items != [] { assert Via(token, items) == if Span(token, items) then token else ""; }
  }

  /** A name that stands for a truth value is a constant of the formula, if constants are recorded. */
  lemma LogicalOrigin(st: Settings, token: string, truth: bool, log: Log)
    requires st.resolve(token) == [Logical(truth)]
    ensures EmitRef(st, token, log) ==
      if !st.consts then (log, [])
      else
        var text := if truth then "TRUE" else "FALSE";
        (Log(log.next + 1, log.nodes + [ConstNode(log.next, ConstTok(LogicalLiteral, text, None), text)], log.edges),
         [Origin(Own(log.next), token, "")])
  {
    var text := if truth then "TRUE" else "FALSE";
    assert Shown(Const(ConstTok(LogicalLiteral, text, None))) == text;
    var via := Via(token, [Logical(truth)]);
    var (one, first) := EmitItem(st, token, via, Logical(truth), log);
    assert EmitItems(st, token, via, [], one) == (one, []);
    assert [Logical(truth)][1..] == [];
    assert first + [] == first;
  }

  // ---------- an operator over references ----------

  /** References of one node each. */
  ghost predicate Singles(st: Settings, names: seq<string>, ids: seq<string>) {
    |names| == |ids| && forall i :: 0 <= i < |names| ==>
      st.resolve(names[i]) == [Whole(ids[i], false)] && ':' !in AfterSheet(names[i])
  }

  function Refs(names: seq<string>): (r: seq<Ast>)
    ensures |r| == |names| && forall i :: 0 <= i < |names| ==> r[i] == Ref(names[i])
  {
    seq(|names|, i requires 0 <= i < |names| => Ref(names[i]))
  }

  function Singly(names: seq<string>, ids: seq<string>): (r: seq<seq<Origin>>)
    requires |names| == |ids|
    ensures |r| == |names| && forall i :: 0 <= i < |names| ==> r[i] == [Origin(Outer(ids[i]), names[i], "")]
  {
    seq(|names|, i requires 0 <= i < |names| => [Origin(Outer(ids[i]), names[i], "")])
  }

  lemma {:induction false} RefsEmit(st: Settings, names: seq<string>, ids: seq<string>, log: Log)
    requires Singles(st, names, ids)
    ensures EmitAll(st, Refs(names), log) == (log, Singly(names, ids))
    decreases |names|
  {
    if names != [] {
      hide EmitRef, AfterSheet;
      assert Singles(st, names[1..], ids[1..]) by {
        assert forall i :: 0 <= i < |names[1..]| ==> names[1..][i] == names[i + 1] && ids[1..][i] == ids[i + 1];
      }
      RefsEmit(st, names[1..], ids[1..], log);
      assert Refs(names)[1..] == Refs(names[1..]);
      ReferenceOrigins(st, names[0], log);
      assert EmitRef(st, names[0], log).1 == [Origin(Outer(ids[0]), names[0], "")];
      assert Singly(names, ids) == [Singly(names, ids)[0]] + Singly(names[1..], ids[1..]);
    }
  }

  /** One edge an operand, in the operands' order. */
  function OperandEdges(st: Settings, kind: OpKind, name: string, names: seq<string>, ids: seq<string>,
                        k: nat): (r: seq<EdgeRecord>)
    requires |names| == |ids|
    ensures |r| == |names|
    ensures forall i :: 0 <= i < |names| ==>
      r[i] == EdgeRecord(Outer(ids[i]), Some(k), st.role(kind, name, i, |names|), i, Tag(kind, name), names[i], "")
  {
    seq(|names|, i requires 0 <= i < |names| =>
      EdgeRecord(Outer(ids[i]), Some(k), st.role(kind, name, i, |names|), i, Tag(kind, name), names[i], ""))
  }

  lemma {:induction false} RefsLink(st: Settings, t: Ast, names: seq<string>, ids: seq<string>, k: nat, i: nat)
    requires t.Op? && |names| == |ids| == |t.args| && i <= |names|
    ensures var all := OperandEdges(st, t.kind, t.name, names, ids, k);
      LinkAll(all[..i], st, t, k, i, Singly(names, ids)[i..]) == all
    decreases |names| - i
  {
    hide Tag;
    var all, rest := OperandEdges(st, t.kind, t.name, names, ids, k), Singly(names, ids)[i..];
    if i == |names| {
      assert all[..i] == all && rest == [];
    } else {
      var slot := SlotAt(st, t, k, i);
      assert rest[0] == [Origin(Outer(ids[i]), names[i], "")] && rest[1..] == Singly(names, ids)[i + 1..];
      assert EdgeOf(slot, rest[0][0]) == all[i];
      assert AddEdge(all[..i], all[i]) == all[..i + 1];
      assert rest[0][1..] == [];
      assert Link(all[..i], slot, rest[0]) == all[..i + 1];
      RefsLink(st, t, names, ids, k, i + 1);
    }
  }

  /** An operator over references of one node each: one node, one edge for every operand with its own
      slot, role and text, repeated operands included, and the edge of the result. */
  lemma OperatorOverReferences(st: Settings, kind: OpKind, name: string, names: seq<string>, ids: seq<string>,
                               rows: nat)
    requires Singles(st, names, ids) && !(kind == Func && name == "INDIRECT")
    ensures var t := Op(kind, name, Refs(names), rows);
      Records(st, t) == Log(1, [OpNode(0, kind, Tag(kind, name), |names|, Shown(t))],
        seq(|names|, i requires 0 <= i < |names| =>
          EdgeRecord(Outer(ids[i]), Some(0), st.role(kind, name, i, |names|), i, Tag(kind, name), names[i], ""))
        + [EdgeRecord(Own(0), None, "result", 0, Tag(kind, name), "", "")])
  {
    hide Tag, Shown, EmitAll, LinkAll, EmitRef, AfterSheet;
    var t := Op(kind, name, Refs(names), rows);
    var start := Log(0, [], []);
    var all := OperandEdges(st, kind, name, names, ids, 0);
    RefsEmit(st, names, ids, start);
    RefsLink(st, t, names, ids, 0, 0);
    assert all[..0] == [] && Singly(names, ids)[0..] == Singly(names, ids);
    assert [] + [OpNode(0, kind, Tag(kind, name), |names|, Shown(t))]
      == [OpNode(0, kind, Tag(kind, name), |names|, Shown(t))];
    var log := Log(1, [OpNode(0, kind, Tag(kind, name), |names|, Shown(t))], all);
    assert Emit(st, t, start) == (log, [Origin(Own(0), "", "")]);
    var root := EdgeRecord(Own(0), None, "result", 0, Tag(kind, name), "", "");
    assert [Origin(Own(0), "", "")][1..] == [];
    assert Link(all, RootSlot(t), [Origin(Own(0), "", "")]) == AddEdge(all, root);
    assert AddEdge(all, root) == all + [root];
    assert all == seq(|names|, i requires 0 <= i < |names| =>
      EdgeRecord(Outer(ids[i]), Some(0), st.role(kind, name, i, |names|), i, Tag(kind, name), names[i], ""));
  }

  // ---------- single operands, constants, INDIRECT ----------

  lemma AddFirst(e: EdgeRecord)
    ensures AddEdge([], e) == [e]
  {
  }

  lemma LinkOne(edges: seq<EdgeRecord>, slot: Slot, o: Origin)
    ensures Link(edges, slot, [o]) == AddEdge(edges, EdgeOf(slot, o))
    ensures edges == [] ==> AddEdge(edges, EdgeOf(slot, o)) == [EdgeOf(slot, o)]
  {
    hide AddEdge;
    assert [o][1..] == [];
    if edges == [] { AddFirst(EdgeOf(slot, o)); }
  }

  /** A formula that is one constant or one reference: its edge leads into the cell. */
  lemma PlainFormulas(st: Settings, token: Token, name: string, id: string)
    requires Singles(st, [name], [id])
    ensures Records(st, Ref(name)) == Log(0, [], [EdgeRecord(Outer(id), None, "identity", 0, "", name, "")])
    ensures Records(st, Const(token)) ==
      if st.consts then
        Log(1, [ConstNode(0, token, Shown(Const(token)))], [EdgeRecord(Own(0), None, "constant", 0, "", "", "")])
      else Log(0, [], [])
    ensures Records(st, Missing) == Log(0, [], [])
  {
    hide Shown, AfterSheet, EmitRef;
    var start := Log(0, [], []);
    assert st.resolve([name][0]) == [Whole([id][0], false)];
    ReferenceOrigins(st, name, start);
    LinkOne([], RootSlot(Ref(name)), Origin(Outer(id), name, ""));
    assert EmitRef(st, name, start).1 == [Origin(Outer(id), name, "")];
    LinkOne([], RootSlot(Const(token)), Origin(Own(0), "", ""));
    assert [] + [ConstNode(0, token, Shown(Const(token)))] == [ConstNode(0, token, Shown(Const(token)))];
  }

  lemma ArgsOne(st: Settings, a: Ast, log: Log)
    ensures EmitAll(st, [a], log) == (Emit(st, a, log).0, [Emit(st, a, log).1])
  {
    hide Emit;
    var (one, first) := Emit(st, a, log);
    assert [a][1..] == [];
    assert EmitAll(st, [], one) == (one, []);
    assert EmitAll(st, [a], log) == (one, [first] + []);
    assert [first] + [] == [first];
  }

  lemma ArgsTwo(st: Settings, a: Ast, b: Ast, log: Log)
    ensures var one := Emit(st, a, log);
      EmitAll(st, [a, b], log) == (Emit(st, b, one.0).0, [one.1, Emit(st, b, one.0).1])
  {
    hide Emit;
    var (one, first) := Emit(st, a, log);
    assert [a, b][1..] == [b];
    ArgsOne(st, b, one);
    var (two, second) := Emit(st, b, one);
    assert EmitAll(st, [a, b], log) == (two, [first] + [second]);
    assert [first] + [second] == [first, second];
  }

  lemma LinkAllOne(edges: seq<EdgeRecord>, st: Settings, t: Ast, k: nat, i: nat, o: Origin)
    requires t.Op?
    ensures LinkAll(edges, st, t, k, i, [[o]]) == AddEdge(edges, EdgeOf(SlotAt(st, t, k, i), o))
  {
    hide AddEdge, SlotAt;
    LinkOne(edges, SlotAt(st, t, k, i), o);
    assert [[o]][1..] == [];
  }

  lemma LinkAllTwo(edges: seq<EdgeRecord>, st: Settings, t: Ast, k: nat, o: Origin, p: Origin)
    requires t.Op?
    ensures LinkAll(edges, st, t, k, 0, [[o], [p]])
      == AddEdge(AddEdge(edges, EdgeOf(SlotAt(st, t, k, 0), o)), EdgeOf(SlotAt(st, t, k, 1), p))
  {
    hide AddEdge, SlotAt, Link;
    LinkOne(edges, SlotAt(st, t, k, 0), o);
    assert [[o], [p]][1..] == [[p]];
    LinkAllOne(AddEdge(edges, EdgeOf(SlotAt(st, t, k, 0), o)), st, t, k, 1, p);
  }

  lemma AddNew(edges: seq<EdgeRecord>, e: EdgeRecord)
    requires forall i :: 0 <= i < |edges| ==> edges[i].target != e.target || edges[i].slot != e.slot
    ensures AddEdge(edges, e) == edges + [e]
  {
  }

  /** One sign over one reference, wherever it comes. */
  lemma SignedReference(st: Settings, sign: string, name: string, id: string, log: Log)
    requires Singles(st, [name], [id])
    requires forall i :: 0 <= i < |log.edges| ==> log.edges[i].target != Some(log.next)
    ensures var t := Op(Prefix, sign, [Ref(name)], 0);
      Emit(st, t, log) == (
        Log(log.next + 1, log.nodes + [OpNode(log.next, Prefix, "u" + sign, 1, Shown(t))],
          log.edges + [EdgeRecord(Outer(id), Some(log.next), st.role(Prefix, sign, 0, 1), 0, "u" + sign, name, "")]),
        [Origin(Own(log.next), "", "")])
  {
    hide Shown, AfterSheet, EmitRef, AddEdge, LinkAll, EmitAll;
    var t := Op(Prefix, sign, [Ref(name)], 0);
    assert st.resolve([name][0]) == [Whole([id][0], false)];
    ArgsOne(st, Ref(name), log);
    ReferenceOrigins(st, name, log);
    assert EmitRef(st, name, log).1 == [Origin(Outer(id), name, "")];
    LinkAllOne(log.edges, st, t, log.next, 0, Origin(Outer(id), name, ""));
    AddNew(log.edges, EdgeOf(SlotAt(st, t, log.next, 0), Origin(Outer(id), name, "")));
  }

  /** A constant and a signed reference under one operator: the constant is numbered first, then the
      sign, then the operator, and every edge leads from the lower number to the higher. */
  lemma ConstantsAreNumbered(st: Settings, op: string, token: Token, sign: string, name: string, id: string)
    requires st.consts && Singles(st, [name], [id])
    ensures var inner := Op(Prefix, sign, [Ref(name)], 0);
      var t := Op(Infix, op, [Const(token), inner], 0);
      Records(st, t) == Log(3,
        [ConstNode(0, token, Shown(Const(token))), OpNode(1, Prefix, "u" + sign, 1, Shown(inner)),
         OpNode(2, Infix, if op == " " then "isect" else op, 2, Shown(t))],
        [EdgeRecord(Outer(id), Some(1), st.role(Prefix, sign, 0, 1), 0, "u" + sign, name, ""),
         EdgeRecord(Own(0), Some(2), st.role(Infix, op, 0, 2), 0, if op == " " then "isect" else op, "", ""),
         EdgeRecord(Own(1), Some(2), st.role(Infix, op, 1, 2), 1, if op == " " then "isect" else op, "", ""),
         EdgeRecord(Own(2), None, "result", 0, if op == " " then "isect" else op, "", "")])
  {
    hide Shown, AfterSheet, EmitRef, AddEdge, LinkAll, EmitAll, Singles;
    var inner := Op(Prefix, sign, [Ref(name)], 0);
    var t := Op(Infix, op, [Const(token), inner], 0);
    var start, one := Log(0, [], []), Log(1, [ConstNode(0, token, Shown(Const(token)))], []);
    assert start.nodes + one.nodes == one.nodes;
    assert Emit(st, Const(token), start) == (one, [Origin(Own(0), "", "")]);
    SignedReference(st, sign, name, id, one);
    var e := EdgeRecord(Outer(id), Some(1), st.role(Prefix, sign, 0, 1), 0, "u" + sign, name, "");
    assert one.edges + [e] == [e];
    ArgsTwo(st, Const(token), inner, start);
    var below := Log(2, one.nodes + [OpNode(1, Prefix, "u" + sign, 1, Shown(inner))], [e]);
    assert EmitAll(st, t.args, start) == (below, [[Origin(Own(0), "", "")], [Origin(Own(1), "", "")]]);
    LinkAllTwo([e], st, t, 2, Origin(Own(0), "", ""), Origin(Own(1), "", ""));
    var left := EdgeOf(SlotAt(st, t, 2, 0), Origin(Own(0), "", ""));
    var right := EdgeOf(SlotAt(st, t, 2, 1), Origin(Own(1), "", ""));
    AddNew([e], left);
    AddNew([e] + [left], right);
    var all := [e] + [left] + [right];
    var root := EdgeOf(RootSlot(t), Origin(Own(2), "", ""));
    LinkOne(all, RootSlot(t), Origin(Own(2), "", ""));
    AddNew(all, root);
  }

  /** An INDIRECT call whose text is known has one more edge for everything it points at, after its
      last operand's slot, with that text as both the reference's and the span's. */
  lemma IndirectIsResolved(st: Settings, name: string, id: string, text: string, target: string)
    requires Singles(st, [name, text], [id, target]) && st.indirect([Ref(name)]) == Some(text)
    ensures var t := Op(Func, "INDIRECT", [Ref(name)], 0);
      Records(st, t) == Log(1, [OpNode(0, Func, "INDIRECT", 1, Shown(t))],
        [EdgeRecord(Outer(id), Some(0), st.role(Func, "INDIRECT", 0, 1), 0, "INDIRECT", name, ""),
         EdgeRecord(Outer(target), Some(0), "resolved", 1, "INDIRECT", text, text),
         EdgeRecord(Own(0), None, "result", 0, "INDIRECT", "", "")])
  {
    hide Shown, AfterSheet, EmitRef, AddEdge, LinkAll, EmitAll;
    var t := Op(Func, "INDIRECT", [Ref(name)], 0);
    var start := Log(0, [], []);
    assert st.resolve([name, text][0]) == [Whole([id, target][0], false)];
    assert st.resolve([name, text][1]) == [Whole([id, target][1], false)];
    ArgsOne(st, Ref(name), start);
    ReferenceOrigins(st, name, start);
    assert EmitRef(st, name, start).1 == [Origin(Outer(id), name, "")];
    LinkAllOne([], st, t, 0, 0, Origin(Outer(id), name, ""));
    var e := EdgeOf(SlotAt(st, t, 0, 0), Origin(Outer(id), name, ""));
    AddNew([], e);
    var node := Log(1, [OpNode(0, Func, "INDIRECT", 1, Shown(t))], [e]);
    assert [] + [OpNode(0, Func, "INDIRECT", 1, Shown(t))] == node.nodes && [] + [e] == [e];
    ReferenceOrigins(st, text, node);
    assert EmitRef(st, text, node).1 == [Origin(Outer(target), text, "")];
    assert Retarget([Origin(Outer(target), text, "")], text) == [Origin(Outer(target), text, text)];
    var slot := Slot(Some(0), "resolved", 1, "INDIRECT");
    LinkOne([e], slot, Origin(Outer(target), text, text));
    var more := EdgeOf(slot, Origin(Outer(target), text, text));
    AddNew([e], more);
    LinkOne([e] + [more], RootSlot(t), Origin(Own(0), "", ""));
    AddNew([e] + [more], EdgeOf(RootSlot(t), Origin(Own(0), "", "")));
  }
}
