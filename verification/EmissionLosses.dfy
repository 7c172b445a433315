/** What the records of a formula let a reader get back, and what the cut of their texts loses. */
module EmissionLosses {
  import opened Options
  import opened FormulaTokens
  import opened FormulaRendering
  import opened FormulaEmission

  // ---------- separators in a text ----------

  /** Where the separator after part i stands in the joined text. */
  function Offset(parts: seq<string>, i: nat): (r: nat)
    requires i < |parts|
  {
    if i == 0 then |parts[0]| else |parts[0]| + 1 + Offset(parts[1..], i - 1)
  }

  lemma JoinStep(parts: seq<string>, breaks: seq<bool>)
    requires |parts| > 1 && |breaks| == |parts| - 1
    ensures JoinBreaks(parts, breaks)
      == parts[0] + ([if breaks[0] then ';' else ','] + JoinBreaks(parts[1..], breaks[1..]))
  {
    var rest := JoinBreaks(parts[1..], breaks[1..]);
    var sep := if breaks[0] then ";" else ",";
    assert parts[0] + sep + rest == parts[0] + (sep + rest);
  }

  lemma {:induction false} JoinSize(parts: seq<string>, a: seq<bool>, b: seq<bool>)
    requires parts != [] && |a| == |b| == |parts| - 1
    ensures |JoinBreaks(parts, a)| == |JoinBreaks(parts, b)|
  {
    if |parts| > 1 {
      JoinStep(parts, a);
      JoinStep(parts, b);
      JoinSize(parts[1..], a[1..], b[1..]);
    }
  }

  lemma {:induction false} OffsetInside(parts: seq<string>, breaks: seq<bool>, i: nat)
    requires i < |breaks| == |parts| - 1
    ensures Offset(parts, i) < |JoinBreaks(parts, breaks)|
  {
    JoinStep(parts, breaks);
    if i > 0 { OffsetInside(parts[1..], breaks[1..], i - 1); }
  }

  /** Every separator that differs stands at m or later. */
  ghost predicate DifferFrom(parts: seq<string>, a: seq<bool>, b: seq<bool>, m: int)
    requires |a| == |b| == |parts| - 1
  {
    forall i :: 0 <= i < |a| && a[i] != b[i] ==> Offset(parts, i) >= m
  }

  lemma DifferStep(parts: seq<string>, a: seq<bool>, b: seq<bool>, m: int)
    requires |parts| > 1 && |a| == |b| == |parts| - 1
    ensures DifferFrom(parts, a, b, m)
      <==> (a[0] != b[0] ==> |parts[0]| >= m) && DifferFrom(parts[1..], a[1..], b[1..], m - |parts[0]| - 1)
  {
    var rest, a', b' := parts[1..], a[1..], b[1..];
    forall i: nat | 0 < i < |a| ensures Offset(parts, i) == |parts[0]| + 1 + Offset(rest, i - 1) {}
    if DifferFrom(parts, a, b, m) {
      forall i | 0 <= i < |a'| && a'[i] != b'[i] ensures Offset(rest, i) >= m - |parts[0]| - 1 {
        assert a[i + 1] != b[i + 1] && Offset(parts, i + 1) >= m;
      }
    }
    if (a[0] != b[0] ==> |parts[0]| >= m) && DifferFrom(rest, a', b', m - |parts[0]| - 1) {
      forall i | 0 <= i < |a| && a[i] != b[i] ensures Offset(parts, i) >= m {
        if i > 0 { assert a'[i - 1] != b'[i - 1]; }
      }
    }
  }

  lemma {:induction false} OffsetsFrom(parts: seq<string>, a: seq<bool>, b: seq<bool>, m: int)
    requires |parts| > 0 && |a| == |b| == |parts| - 1 && m <= |parts[0]|
    ensures DifferFrom(parts, a, b, m)
  {
    forall i: nat | i < |a| ensures Offset(parts, i) >= |parts[0]| {}
  }

  lemma PrefixOf(head: string, sep: char, rest: string, m: nat)
    requires |head| < m <= |head| + 1 + |rest|
    ensures (head + ([sep] + rest))[..m] == head + ([sep] + rest[..m - |head| - 1])
  {
  }

  lemma SameSplit(head: string, c: char, d: char, x: string, y: string)
    ensures head + ([c] + x) == head + ([d] + y) <==> c == d && x == y
  {
    var a, b := head + ([c] + x), head + ([d] + y);
    if a == b {
      assert a[|head|] == c && b[|head|] == d;
      assert a[|head| + 1..] == x && b[|head| + 1..] == y;
    }
  }

  lemma OneJoined(parts: seq<string>, breaks: seq<bool>)
    requires |parts| == 1
    ensures JoinBreaks(parts, breaks) == parts[0]
  {
  }

  /** Two texts of the same parts agree on their first m characters exactly when every separator that
      differs stands at m or later. */
  lemma {:induction false} JoinsAgree(parts: seq<string>, a: seq<bool>, b: seq<bool>, m: nat)
    requires parts != [] && |a| == |b| == |parts| - 1
    requires m <= |JoinBreaks(parts, a)| && m <= |JoinBreaks(parts, b)|
    ensures JoinBreaks(parts, a)[..m] == JoinBreaks(parts, b)[..m] <==> DifferFrom(parts, a, b, m)
  {
    if |parts| == 1 {
      OneJoined(parts, a);
      OneJoined(parts, b);
    }
    hide DifferFrom, JoinBreaks, Offset;
    if |parts| == 1 {
      OffsetsFrom(parts, a, b, m);
    } else {
      JoinStep(parts, a);
      JoinStep(parts, b);
      if m <= |parts[0]| {
        OffsetsFrom(parts, a, b, m);
        assert JoinBreaks(parts, a)[..m] == parts[0][..m] == JoinBreaks(parts, b)[..m];
      } else {
        var rest, a', b', left := parts[1..], a[1..], b[1..], m - |parts[0]| - 1;
        var c, d := if a[0] then ';' else ',', if b[0] then ';' else ',';
        assert c == d <==> a[0] == b[0];
        DifferStep(parts, a, b, m);
        JoinsAgree(rest, a', b', left);
        PrefixOf(parts[0], c, JoinBreaks(rest, a'), m);
        PrefixOf(parts[0], d, JoinBreaks(rest, b'), m);
        SameSplit(parts[0], c, d, JoinBreaks(rest, a')[..left], JoinBreaks(rest, b')[..left]);
      }
    }
  }

  // ---------- the text of an array ----------

  /** Rows of one length each. */
  predicate Even(args: seq<Ast>, rows: nat) {
    args != [] && rows > 0 && |args| == rows * PerRow(|args|, rows)
  }

  function ArrayOf(args: seq<Ast>, rows: nat): (r: Ast) { Op(Array, "{}", args, rows) }

  lemma ArrayText(args: seq<Ast>, rows: nat)
    requires Even(args, rows)
    ensures Render(ArrayOf(args, rows)) == "{" + JoinBreaks(RenderAll(args), RowBreaks(|args|, rows)) + "}"
  {
    hide JoinBreaks, Join, Chunks, RenderAll, PerRow;
    JoinRows(RenderAll(args), RowBreaks(|args|, rows), PerRow(|args|, rows), rows);
  }

  /** Two row counts differ in a separator that the cut text does not show. */
  ghost predicate HiddenBreaks(args: seq<Ast>, r: nat, q: nat)
    requires args != []
  {
    forall i :: 0 <= i < |args| - 1 && RowBreaks(|args|, r)[i] != RowBreaks(|args|, q)[i] ==>
      |Render(ArrayOf(args, r))| > CUT && 1 + Offset(RenderAll(args), i) >= CUT - 1
  }

  lemma CutsAgree(a: string, b: string)
    requires |a| == |b| + 0
    ensures Cut(a) == Cut(b) <==> if |a| <= CUT then a == b else a[..CUT - 1] == b[..CUT - 1]
  {
    if |a| > CUT {
      assert Cut(a)[..CUT - 1] == a[..CUT - 1] && Cut(b)[..CUT - 1] == b[..CUT - 1];
    }
  }

  lemma InBraces(x: string, y: string, m: nat)
    requires |x| == |y| && m <= |x|
    ensures ("{" + x + "}")[..m + 1] == ("{" + y + "}")[..m + 1] <==> x[..m] == y[..m]
    ensures "{" + x + "}" == "{" + y + "}" <==> x == y
  {
    var a, b := "{" + x + "}", "{" + y + "}";
    assert a[..m + 1] == "{" + x[..m] && b[..m + 1] == "{" + y[..m];
    assert ("{" + x[..m])[1..] == x[..m] && ("{" + y[..m])[1..] == y[..m];
    assert a[1..|x| + 1] == x && b[1..|y| + 1] == y;
  }

  /** An array shows the same text under two row counts exactly when every separator that differs lies
      past the cut. */
  lemma SameShown(args: seq<Ast>, r: nat, q: nat)
    requires Even(args, r) && Even(args, q)
    ensures Shown(ArrayOf(args, r)) == Shown(ArrayOf(args, q)) <==> HiddenBreaks(args, r, q)
  {
    var parts, a, b := RenderAll(args), RowBreaks(|args|, r), RowBreaks(|args|, q);
    ArrayText(args, r);
    ArrayText(args, q);
    JoinSize(parts, a, b);
    var x, y := JoinBreaks(parts, a), JoinBreaks(parts, b);
    hide Render, RenderAll, RowBreaks, JoinBreaks, PerRow, Offset, Cut;
    CutsAgree("{" + x + "}", "{" + y + "}");
    if |x| + 2 <= CUT {
      InBraces(x, y, |x|);
      JoinsAgree(parts, a, b, |x|);
      assert x[..|x|] == x && y[..|y|] == y;
      forall i | 0 <= i < |a| ensures Offset(parts, i) < |x| { OffsetInside(parts, a, i); }
    } else {
      InBraces(x, y, CUT - 2);
      JoinsAgree(parts, a, b, CUT - 2);
    }
  }

  lemma Scale(r: nat, a: nat, b: nat)
    requires a <= b
    ensures r * a <= r * b
  {
  }

  lemma MoreRowsAreShorter(n: nat, r: nat, q: nat, long: nat, short: nat)
    requires n == r * long == q * short && 0 < r < q && n > 0
    ensures 0 < short < long && 2 * short <= n
  {
    Apart(r, q, short);
    Scale(short, 2, q);
    if long <= short { Scale(r, long, short); }
  }

  lemma RowsApart(args: seq<Ast>, r: nat, q: nat)
    requires Even(args, r) && Even(args, q) && r < q
    ensures exists i :: 0 <= i < |args| - 1 && RowBreaks(|args|, r)[i] != RowBreaks(|args|, q)[i]
  {
    var n, long, short := |args|, PerRow(|args|, r), PerRow(|args|, q);
    MoreRowsAreShorter(n, r, q, long, short);
    hide PerRow, Even;
    SmallMod(short, long);
    DivUnique(short, short, 1, 0);
    assert RowBreaks(n, q)[short - 1] && !RowBreaks(n, r)[short - 1];
  }

  /** While the text of an array fits, it shows the row count. */
  lemma RowsAreShown(args: seq<Ast>, r: nat, q: nat)
    requires Even(args, r) && Even(args, q) && |Render(ArrayOf(args, r))| <= CUT
    ensures Shown(ArrayOf(args, r)) == Shown(ArrayOf(args, q)) <==> r == q
  {
    hide Render, RenderAll, RowBreaks, PerRow, Offset, Cut;
    SameShown(args, r, q);
    if r < q { RowsApart(args, r, q); }
    if q < r { RowsApart(args, q, r); }
  }

  lemma SameEmission(st: Settings, args: seq<Ast>, r: nat, q: nat)
    requires Shown(ArrayOf(args, r)) == Shown(ArrayOf(args, q))
    ensures Records(st, ArrayOf(args, r)) == Records(st, ArrayOf(args, q))
  {
    var a, b := ArrayOf(args, r), ArrayOf(args, q);
    hide Shown, EmitAll, LinkAll, Link;
    var (below, origins) := EmitAll(st, args, Log(0, [], []));
    LinkAllSees(below.edges, st, a, b, below.next, 0, origins);
  }

  /** Two row counts of one array give the same records exactly when every separator that differs lies
      past the cut. */
  lemma SameArrayRecords(st: Settings, args: seq<Ast>, r: nat, q: nat)
    requires Even(args, r) && Even(args, q) && forall i :: 0 <= i < |args| ==> Named(args[i])
    ensures Records(st, ArrayOf(args, r)) == Records(st, ArrayOf(args, q)) <==> HiddenBreaks(args, r, q)
  {
    var a, b := ArrayOf(args, r), ArrayOf(args, q);
    SameShown(args, r, q);
    RecordsRebuild(st, a);
    RecordsRebuild(st, b);
    if Shown(a) == Shown(b) { SameEmission(st, args, r, q); }
    hide Shown, Rebuild, Records, HiddenBreaks, RecordedAll;
  }

  // ---------- the tree again ----------

  /** The least row count under which an array over these operands shows this text. */
  function RowsFrom(args: seq<Ast>, expr: string, rows: nat): (r: nat)
    decreases |args| + 1 - rows
  {
    if rows > |args| then 1
    else if Even(args, rows) && Shown(ArrayOf(args, rows)) == expr then rows
    else RowsFrom(args, expr, rows + 1)
  }

  /** The tree that a formula's records show, the row count of an array taken from its text. */
  function Recovered(k: Kept): (r: Ast) {
    match k
    case NoOperand => Missing
    case KeptRef(name) => Ref(name)
    case KeptConst(token) => Const(token)
    case KeptOp(kind, name, args, expr, _) =>
      var operands := RecoveredAll(args);
      Op(kind, name, operands, if kind == Array then RowsFrom(operands, expr, 1) else 0)
  }

  function RecoveredAll(ks: seq<Kept>): (r: seq<Ast>)
    ensures |r| == |ks|
  {
    if ks == [] then [] else [Recovered(ks[0])] + RecoveredAll(ks[1..])
  }

  /** Every reference resolves, and every array has even rows and a text that fits. */
  predicate Complete(st: Settings, t: Ast)
    decreases t
  {
    match t
    case Ref(name) => st.resolve(name) != []
    case Const(_) => true
    case Missing => true
    case Op(kind, _, args, rows) =>
      && (forall i :: 0 <= i < |args| ==> Complete(st, args[i]))
      && if kind == Array then (if args == [] then rows == 1 else Even(args, rows) && |Render(t)| <= CUT) else rows == 0
  }

  lemma {:induction false} RowsFound(args: seq<Ast>, rows: nat, from: nat)
    requires Even(args, rows) && |Render(ArrayOf(args, rows))| <= CUT && from <= rows <= |args|
    ensures RowsFrom(args, Shown(ArrayOf(args, rows)), from) == rows
    decreases rows - from
  {
    hide Shown, Render, PerRow;
    if from < rows {
      if Even(args, from) { RowsAreShown(args, rows, from); }
      RowsFound(args, rows, from + 1);
    }
  }

  lemma RowsAtMost(args: seq<Ast>, rows: nat)
    requires Even(args, rows)
    ensures rows <= |args|
  {
    Scale(rows, 1, PerRow(|args|, rows));
  }

  lemma NoRows(expr: string)
    ensures RowsFrom([], expr, 1) == 1
  {
  }

  lemma {:induction false} CompleteRecovered(st: Settings, t: Ast)
    requires st.consts && Named(t) && Complete(st, t)
    ensures Recovered(Recorded(st, t)) == t
    decreases t, 0
  {
    if t.Op? {
      hide Shown, Render, RowsFrom, PerRow;
      AllRecovered(st, t.args);
      if t.kind == Array {
        if t.args == [] {
          NoRows(Shown(t));
        } else {
          RowsAtMost(t.args, t.rows);
          assert t == ArrayOf(t.args, t.rows);
          RowsFound(t.args, t.rows, 1);
        }
      }
    }
  }

  lemma {:induction false} AllRecovered(st: Settings, ts: seq<Ast>)
    requires st.consts && forall i :: 0 <= i < |ts| ==> Named(ts[i]) && Complete(st, ts[i])
    ensures RecoveredAll(RecordedAll(st, ts)) == ts
    decreases ts, 1
  {
    if ts != [] {
      hide Complete, Recorded, Recovered, Named;
      assert ts[0] in ts;
      CompleteRecovered(st, ts[0]);
      AllRecovered(st, ts[1..]);
      assert RecordedAll(st, ts)[1..] == RecordedAll(st, ts[1..]);
      assert ts == [ts[0]] + ts[1..];
    }
  }

  /** With constants on, every reference resolved and every array even and short enough to be shown, the
      records give the very tree back, row counts included. */
  lemma EmissionLosesNothing(st: Settings, t: Ast)
    requires Named(t) && st.consts && Complete(st, t)
    ensures Recovered(Rebuild(Records(st, t))) == t
  {
    RecordsRebuild(st, t);
    CompleteRecovered(st, t);
  }

  // ---------- at one input ----------

  function One(): (r: Ast) { Const(ConstTok(NumberLiteral, "1", Some(1.0))) }

  function Two(): (r: Ast) { Const(ConstTok(NumberLiteral, "2", Some(2.0))) }

  /** A text literal of 198 characters, its quotes included. */
  function LongText(): (r: Ast) {
    Const(ConstTok(TextLiteral, "\"" + seq(196, _ => 'x') + "\"", None))
  }

  lemma TwoParts(a: Ast, b: Ast)
    ensures Even([a, b], 1) && Even([a, b], 2) && RenderAll([a, b]) == [Render(a), Render(b)]
    ensures RowBreaks(2, 1) == [false] && RowBreaks(2, 2) == [true]
  {
    RenderTwo(a, b);
  }

  /** A row count is lost past the cut: the long text and 2 in one row or in two have the same records. */
  lemma RowsAreLost(st: Settings)
    ensures Records(st, ArrayOf([LongText(), Two()], 1)) == Records(st, ArrayOf([LongText(), Two()], 2))
  {
    var args := [LongText(), Two()];
    TwoParts(LongText(), Two());
    ArrayText(args, 1);
    assert HiddenBreaks(args, 1, 2);
    SameArrayRecords(st, args, 1, 2);
  }

  /** Before the cut it is kept: {1,2} and {1;2} have different records. */
  lemma RowsAreKept(st: Settings)
    ensures Records(st, ArrayOf([One(), Two()], 1)) != Records(st, ArrayOf([One(), Two()], 2))
  {
    var args := [One(), Two()];
    TwoParts(One(), Two());
    ArrayText(args, 1);
    assert !HiddenBreaks(args, 1, 2);
    SameArrayRecords(st, args, 1, 2);
  }

  /** With constants off they leave no node behind, and still show in the text of their operator. */
  lemma ConstantsStillShow(st: Settings)
    requires !st.consts
    ensures Records(st, Op(Prefix, "-", [One()], 0)) != Records(st, Op(Prefix, "-", [Two()], 0))
  {
    var a, b := Op(Prefix, "-", [One()], 0), Op(Prefix, "-", [Two()], 0);
    RecordsRebuild(st, a);
    RecordsRebuild(st, b);
    assert Render(a) == "(-1)" && Render(b) == "(-2)";
    assert Shown(a)[2] != Shown(b)[2];
  }

  function Quoted(): (r: Ast) { Const(ConstTok(TextLiteral, "\"Open\"", None)) }

  /** Constants on, a name defined as TRUE, and INDIRECT of the quoted name assembling it. */
  function Literals(): (r: Settings) {
    Settings(true, name => if name == "Open" then [Logical(true)] else [], (kind, name, i, total) => "arg",
             args => if args == [Quoted()] then Some("Open") else None)
  }

  lemma OneLiteral(log: Log)
    ensures EmitRef(Literals(), "Open", log).1 == [Origin(Own(log.next), "Open", "")]
  {
    var items := Literals().resolve("Open");
    var via := Via("Open", items);
    var (one, first) := EmitItem(Literals(), "Open", via, items[0], log);
    assert items == [Logical(true)] && items[1..] == [];
    assert first == [Origin(Own(log.next), "Open", "")];
    assert EmitItems(Literals(), "Open", via, items[1..], one).1 == [];
    assert first + [] == first;
  }

  lemma LinkedOne(edges: seq<EdgeRecord>, slot: Slot, o: Origin)
    ensures exists e :: e in Link(edges, slot, [o]) && SameKey(e, EdgeOf(slot, o))
  {
    var e := EdgeOf(slot, o);
    assert [o][1..] == [];
    var after := AddEdge(edges, e);
    assert Link(edges, slot, [o]) == after;
    if i :| 0 <= i < |edges| && SameKey(edges[i], e) {
      assert edges[i] in Link(edges, slot, [o]) && SameKey(edges[i], e);
    } else {
      assert after == edges + [e] && after[|edges|] == e;
      assert e in Link(edges, slot, [o]) && SameKey(e, e);
    }
  }

  /** The literal an INDIRECT call points at is numbered after the call, so its edge goes from a higher
      number to a lower one. */
  lemma IndirectPointsBack()
    ensures exists e ::
      e in Records(Literals(), Op(Func, "INDIRECT", [Quoted()], 0)).edges && e.source == Own(2) && e.target == Some(1)
  {
    var st, t := Literals(), Op(Func, "INDIRECT", [Quoted()], 0);
    var (below, origins) := EmitAll(st, t.args, Log(0, [], []));
    assert t.args[1..] == [];
    assert below.next == 1;
    var node := WithNode(st, t, below, origins);
    var (after, found) := EmitRef(st, "Open", node);
    assert found == [Origin(Own(2), "Open", "")] by { OneLiteral(node); }
    var wired := Retarget(found, "Open");
    var slot := Slot(Some(1), "resolved", 1, "INDIRECT");
    var e := EdgeOf(slot, wired[0]);
    assert found[1..] == [] && wired == [found[0].(via := "Open")];
    assert wired[1..] == [];
    assert e.source == Own(2) && e.target == Some(1);
    LinkedOne(after.edges, slot, wired[0]);
    var linked := Link(after.edges, slot, wired);
    var found' :| found' in linked && SameKey(found', e);
    LinkAdds(linked, RootSlot(t), [Origin(Own(1), "", "")]);
    EmitShape(st, t, Log(0, [], []));
    assert found' in Records(st, t).edges;
  }
}
