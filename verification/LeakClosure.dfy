/** A cell drops out when its value can also be read somewhere that is not masked; a cell that drops
    out uncovers its own value. */
module LeakClosure {
  import opened AuditRows

  /** Picklist sheets hold no modelling content, so their cells may be masked along with a value
      unless the cell exists only in the delivered workbook. */
  datatype Policy = Policy(picklist: string -> bool, baselineOnly: set<string>)

  /** The sheet part of a reference. */
  function SheetOf(ref: string): (r: string) {
    if ref == "" then "" else if ref[|ref| - 1] == '!' then ref[..|ref| - 1] else SheetOf(ref[..|ref| - 1])
  }

  predicate Maskable(p: Policy, ref: string) {
    p.picklist(SheetOf(ref)) && ref !in p.baselineOnly
  }

  // ---------- one pass ----------

  function CellsOf(rows: seq<Audit>): (r: set<string>) {
    set i, o | 0 <= i < |rows| && rows[i].clean && o in Refs(rows[i].cells) :: o
  }

  function ExtrasOf(rows: seq<Audit>): (r: set<string>) {
    set i, o | 0 <= i < |rows| && rows[i].clean && o in rows[i].extra :: o
  }

  function Covered(rows: seq<Audit>): (r: set<string>) { CellsOf(rows) + ExtrasOf(rows) }

  function Masked(p: Policy, duplicates: set<string>, extra: set<string>, covered: set<string>): (r: set<string>) {
    extra + set o | o in duplicates && o !in covered && Maskable(p, o)
  }

  function Leaks(p: Policy, duplicates: set<string>, extra: set<string>, covered: set<string>): (r: set<string>) {
    set o | o in duplicates && o !in covered && o !in extra && !Maskable(p, o)
  }

  function Judge(p: Policy, r: Audit, covered: set<string>): (result: Audit) {
    if !r.clean then r
    else
      var leaks := Leaks(p, r.duplicates, r.extra, covered);
      var masked := r.(extra := Masked(p, r.duplicates, r.extra, covered));
      if leaks == {} then masked else masked.(clean := false, leaks := leaks, code := LEAK)
  }

  function Judged(p: Policy, rows: seq<Audit>, covered: set<string>): (s: seq<Audit>)
    ensures |s| == |rows|
  {
    seq(|rows|, i requires 0 <= i < |rows| => Judge(p, rows[i], covered))
  }

  function Pass(p: Policy, rows: seq<Audit>): (s: seq<Audit>)
    ensures |s| == |rows|
  {
    Judged(p, rows, Covered(rows))
  }

  function Survivors(rows: seq<Audit>): (r: set<nat>) {
    set i: nat | i < |rows| && rows[i].clean
  }

  lemma Smaller<T>(a: set<T>, b: set<T>)
    requires a < b
    ensures |a| < |b|
  {
    assert b == a + (b - a);
    assert b - a != {};
  }

  lemma PassShrinks(p: Policy, rows: seq<Audit>)
    ensures Survivors(Pass(p, rows)) <= Survivors(rows)
    ensures Survivors(Pass(p, rows)) != Survivors(rows) ==> |Survivors(Pass(p, rows))| < |Survivors(rows)|
  {
    hide Leaks, Masked, Covered;
    if Survivors(Pass(p, rows)) != Survivors(rows) { Smaller(Survivors(Pass(p, rows)), Survivors(rows)); }
  }

  /** Passes until one drops nothing. */
  function Close(p: Policy, rows: seq<Audit>): (s: seq<Audit>)
    ensures |s| == |rows|
    decreases |Survivors(rows)|
  {
    PassShrinks(p, rows);
    var next := Pass(p, rows);
    if Survivors(next) == Survivors(rows) then next else Close(p, next)
  }

  // ---------- the loop as the program runs it ----------

  datatype Verdict = Verdict(extra: set<string>, leaks: set<string>)

  method ExamineGroup(p: Policy, group: seq<string>, extra: set<string>, covered: set<string>) returns (v: Verdict)
    ensures v.extra == Masked(p, Elements(group), extra, covered)
    ensures v.leaks == Leaks(p, Elements(group), extra, covered)
  {
    var masked, leaks := extra, {};
    var i := 0;
    while i < |group|
      invariant 0 <= i <= |group|
      invariant forall o :: o in masked <==> o in extra || (o in group[..i] && o !in covered && Maskable(p, o))
      invariant forall o :: o in leaks <==> o in group[..i] && o !in covered && o !in extra && !Maskable(p, o)
    {
      var other := group[i];
      if other !in covered && other !in masked {
        if Maskable(p, other) { masked := masked + {other}; } else { leaks := leaks + {other}; }
      }
      i := i + 1;
    }
    v := Verdict(masked, leaks);
  }

  method Cover(rows: seq<Row>) returns (covered: set<string>)
    ensures covered == Covered(Snapshot(rows))
  {
    covered := {};
    var i := 0;
    while i < |rows|
      invariant 0 <= i <= |rows|
      invariant forall o ::
        o in covered <==> exists j :: 0 <= j < i && rows[j].clean && (o in Refs(rows[j].cells) || o in rows[j].extra)
    {
      if rows[i].clean { covered := covered + Refs(rows[i].cells) + rows[i].extra; }
      i := i + 1;
    }
    ghost var s := Snapshot(rows);
    forall o ensures o in covered <==> o in Covered(s) {
      if j :| 0 <= j < |rows| && rows[j].clean && (o in Refs(rows[j].cells) || o in rows[j].extra) {
        assert s[j] == rows[j].Now();
      }
    }
  }

  /** Every remembered verdict is the one its row would get. */
  ghost predicate MemoHolds(memo: map<(RefList, set<string>), Verdict>, p: Policy, covered: set<string>) {
    forall k :: k in memo ==>
      memo[k] == Verdict(Masked(p, Elements(k.0.refs), k.1, covered), Leaks(p, Elements(k.0.refs), k.1, covered))
  }

  /** A row's verdict, remembered for rows with the same value list and the same extra cells. */
  method JudgeRow(p: Policy, r: Row, covered: set<string>, memo: map<(RefList, set<string>), Verdict>)
    returns (after: map<(RefList, set<string>), Verdict>)
    requires r.clean && MemoHolds(memo, p, covered)
    modifies r
    ensures MemoHolds(after, p, covered)
    ensures r.Now() == Judge(p, old(r.Now()), covered)
  {
    hide Masked, Leaks, Maskable;
    after := memo;
    var key := (r.duplicates, r.extra);
    if key !in memo {
      var verdict := ExamineGroup(p, r.duplicates.refs, r.extra, covered);
      after := memo[key := verdict];
    }
    var v := after[key];
    r.extra := v.extra;
    if v.leaks != {} { r.clean, r.leaks, r.code := false, v.leaks, LEAK; }
  }

  lemma DirtyStays(p: Policy, r: Audit, covered: set<string>)
    requires !r.clean
    ensures Judge(p, r, covered) == r
  {
  }

  /** A row after its turn; a row that is not clean is passed over. */
  method TurnRow(p: Policy, r: Row, covered: set<string>, memo: map<(RefList, set<string>), Verdict>)
    returns (after: map<(RefList, set<string>), Verdict>, dropped: bool)
    requires MemoHolds(memo, p, covered)
    modifies r
    ensures MemoHolds(after, p, covered)
    ensures r.Now() == Judge(p, old(r.Now()), covered)
    ensures dropped <==> old(r.Now()).clean && !r.Now().clean
  {
    hide Judge, MemoHolds, Refs, Elements;
    after, dropped := memo, false;
    if r.clean {
      after := JudgeRow(p, r, covered, memo);
      dropped := !r.clean;
    } else {
      DirtyStays(p, r.Now(), covered);
    }
  }

  method NoVerdicts(p: Policy, covered: set<string>) returns (memo: map<(RefList, set<string>), Verdict>)
    ensures MemoHolds(memo, p, covered)
  {
    memo := map[];
  }

  method TurnAll(p: Policy, rows: seq<Row>, covered: set<string>, ghost was: seq<Audit>) returns (dropped: bool)
    requires Distinct(rows) && |was| == |rows| && forall j :: 0 <= j < |rows| ==> rows[j].Now() == was[j]
    modifies set i | 0 <= i < |rows| :: rows[i]
    ensures forall j :: 0 <= j < |rows| ==> rows[j].Now() == Judge(p, was[j], covered)
    ensures dropped <==> SomeFell(was, Judged(p, was, covered), |rows|)
  {
    hide Judge, MemoHolds, Row.Now, SomeFell;
    NoneFell(was, Judged(p, was, covered));
    var memo := NoVerdicts(p, covered);
    dropped := false;
    var i := 0;
    while i < |rows|
      invariant 0 <= i <= |rows|
      invariant MemoHolds(memo, p, covered)
      invariant forall j :: 0 <= j < i ==> rows[j].Now() == Judge(p, was[j], covered)
      invariant forall j :: i <= j < |rows| ==> rows[j].Now() == was[j]
      invariant dropped <==> SomeFell(was, Judged(p, was, covered), i)
    {
      FellStep(was, Judged(p, was, covered), i);
      var fell;
      memo, fell := TurnRow(p, rows[i], covered, memo);
      dropped := dropped || fell;
      i := i + 1;
    }
  }

  lemma DroppedMeans(p: Policy, was: seq<Audit>, now: seq<Audit>)
    requires now == Pass(p, was)
    ensures Survivors(now) != Survivors(was) <==> exists j :: 0 <= j < |was| && was[j].clean && !now[j].clean
  {
    hide Leaks, Masked, Covered;
    if j :| 0 <= j < |was| && was[j].clean && !now[j].clean {
      assert j in Survivors(was) && j !in Survivors(now);
    }
  }

  lemma PassDone(p: Policy, rows: seq<Row>, was: seq<Audit>, covered: set<string>)
    requires |was| == |rows| && covered == Covered(was)
    requires forall j :: 0 <= j < |rows| ==> rows[j].Now() == Judge(p, was[j], covered)
    ensures Snapshot(rows) == Pass(p, was)
    ensures Survivors(Snapshot(rows)) != Survivors(was) <==> SomeFell(was, Judged(p, was, covered), |rows|)
  {
    hide Judge, Covered, Row.Now, Survivors;
    var now := Snapshot(rows);
    assert now == Pass(p, was);
    DroppedMeans(p, was, now);
  }

  /** One pass: the cover is taken once, before any row drops. */
  method RunPass(p: Policy, rows: seq<Row>) returns (dropped: bool)
    requires Distinct(rows)
    modifies set i | 0 <= i < |rows| :: rows[i]
    ensures Snapshot(rows) == Pass(p, old(Snapshot(rows)))
    ensures dropped <==> Survivors(Snapshot(rows)) != Survivors(old(Snapshot(rows)))
  {
    ghost var was := Snapshot(rows);
    assert forall j :: 0 <= j < |rows| ==> rows[j].Now() == was[j];
    hide *;
    var covered := Cover(rows);
    dropped := TurnAll(p, rows, covered, was);
    PassDone(p, rows, was, covered);
  }

  method CloseLeaks(p: Policy, rows: seq<Row>)
    requires Distinct(rows)
    modifies set i | 0 <= i < |rows| :: rows[i]
    ensures Snapshot(rows) == Close(p, old(Snapshot(rows)))
  {
    ghost var start := Snapshot(rows);
    var dropped := true;
    while dropped
      invariant if dropped then Close(p, Snapshot(rows)) == Close(p, start) else Snapshot(rows) == Close(p, start)
      decreases dropped, |Survivors(Snapshot(rows))|
    {
      ghost var was := Snapshot(rows);
      PassShrinks(p, was);
      dropped := RunPass(p, rows);
    }
  }

  // ---------- the surviving set ----------

  ghost predicate Held(rows: seq<Audit>, s: set<nat>, o: string) {
    exists i :: i in s && i < |rows| && o in Refs(rows[i].cells)
  }

  /** Every duplicate of every member is a cell of a member or can be masked. */
  ghost predicate Supported(p: Policy, rows: seq<Audit>, s: set<nat>) {
    forall i :: i in s ==>
      i < |rows| && rows[i].clean && forall o :: o in rows[i].duplicates ==> Maskable(p, o) || Held(rows, s, o)
  }

  /** Extra cells are duplicates that may be masked. */
  ghost predicate ExtrasMaskable(p: Policy, rows: seq<Audit>) {
    forall i :: 0 <= i < |rows| ==> forall o :: o in rows[i].extra ==> o in rows[i].duplicates && Maskable(p, o)
  }

  ghost predicate SameCells(a: seq<Audit>, b: seq<Audit>) {
    |a| == |b| && forall i :: 0 <= i < |a| ==> a[i].cells == b[i].cells && a[i].duplicates == b[i].duplicates
  }

  lemma PassKeeps(p: Policy, rows: seq<Audit>)
    requires ExtrasMaskable(p, rows)
    ensures SameCells(Pass(p, rows), rows) && ExtrasMaskable(p, Pass(p, rows))
  {
  }

  /** No supported set loses a member in a pass. */
  lemma PassKeepsSupported(p: Policy, rows: seq<Audit>, t: set<nat>)
    requires Supported(p, rows, t)
    ensures Supported(p, Pass(p, rows), t)
  {
    hide Maskable;
    var next := Pass(p, rows);
    forall i | i in t ensures next[i].clean && next[i].duplicates == rows[i].duplicates {
      forall o | o in rows[i].duplicates && !Maskable(p, o) ensures o in Covered(rows) {
        assert Held(rows, t, o);
        var j :| j in t && j < |rows| && o in Refs(rows[j].cells);
      }
      assert Leaks(p, rows[i].duplicates, rows[i].extra, Covered(rows)) == {};
    }
    forall i, o | i in t && o in next[i].duplicates && !Maskable(p, o) ensures Held(next, t, o) {
      assert Held(rows, t, o);
      var j :| j in t && j < |rows| && o in Refs(rows[j].cells);
      assert next[j].cells == rows[j].cells;
    }
  }

  lemma NoLeak(p: Policy, rows: seq<Audit>, i: nat, o: string)
    requires i < |rows| && rows[i].clean && Pass(p, rows)[i].clean && o in rows[i].duplicates
    ensures o in Covered(rows) || o in rows[i].extra || Maskable(p, o)
  {
    hide Covered, Maskable;
    assert Leaks(p, rows[i].duplicates, rows[i].extra, Covered(rows)) == {};
    assert o !in Leaks(p, rows[i].duplicates, rows[i].extra, Covered(rows));
  }

  /** A pass that drops nothing leaves a supported set, each of whose duplicates is masked. */
  lemma StableSupported(p: Policy, rows: seq<Audit>)
    requires ExtrasMaskable(p, rows) && Survivors(Pass(p, rows)) == Survivors(rows)
    ensures Supported(p, Pass(p, rows), Survivors(Pass(p, rows)))
    ensures forall i :: i in Survivors(Pass(p, rows)) ==> Pass(p, rows)[i].duplicates <= Covered(Pass(p, rows))
  {
    hide Maskable;
    var next, s := Pass(p, rows), Survivors(rows);
    forall i, o | i in s && o in rows[i].duplicates
      ensures (Maskable(p, o) || Held(next, s, o)) && o in Covered(next)
    {
      assert next[i].clean && rows[i].clean;
      NoLeak(p, rows, i, o);
      if o in CellsOf(rows) {
        var j :| 0 <= j < |rows| && rows[j].clean && o in Refs(rows[j].cells);
        assert j in s && next[j].clean && next[j].cells == rows[j].cells;
      } else if o in ExtrasOf(rows) {
        var j :| 0 <= j < |rows| && rows[j].clean && o in rows[j].extra;
        assert j in s && next[j].clean && o in next[j].extra;
      } else {
        assert o in next[i].extra;
      }
    }
  }

  lemma SupportedMoves(p: Policy, a: seq<Audit>, b: seq<Audit>, s: set<nat>)
    requires SameCells(a, b) && Survivors(a) <= Survivors(b) && Supported(p, a, s)
    ensures Supported(p, b, s)
  {
    hide Maskable;
    forall i | i in s ensures i < |b| && b[i].clean {
      assert i in Survivors(a);
    }
    forall i, o | i in s && o in b[i].duplicates && !Maskable(p, o) ensures Held(b, s, o) {
      assert Held(a, s, o);
      var j :| j in s && j < |a| && o in Refs(a[j].cells);
      assert o in Refs(b[j].cells);
    }
  }

  /** What survives is supported, holds every supported set, and leaves no duplicate unmasked. */
  lemma {:induction false} CloseIsGreatest(p: Policy, rows: seq<Audit>, t: set<nat>)
    requires ExtrasMaskable(p, rows)
    ensures var s := Survivors(Close(p, rows));
      Supported(p, rows, s) && (Supported(p, rows, t) ==> t <= s)
    ensures SameCells(Close(p, rows), rows) && ExtrasMaskable(p, Close(p, rows))
    ensures forall i :: i in Survivors(Close(p, rows)) ==> rows[i].duplicates <= Covered(Close(p, rows))
    decreases |Survivors(rows)|
  {
    hide Pass, Maskable, Covered;
    PassShrinks(p, rows);
    PassKeeps(p, rows);
    var next := Pass(p, rows);
    if Supported(p, rows, t) { PassKeepsSupported(p, rows, t); }
    if Survivors(next) == Survivors(rows) {
      StableSupported(p, rows);
      SupportedMoves(p, next, rows, Survivors(next));
    } else {
      CloseIsGreatest(p, next, t);
      SupportedMoves(p, next, rows, Survivors(Close(p, next)));
    }
  }

  /** The greatest supported set: the rows whose duplicates can all be hidden, together. */
  lemma ClosureIsUniqueGreatest(p: Policy, rows: seq<Audit>, s: set<nat>)
    requires ExtrasMaskable(p, rows)
    ensures s == Survivors(Close(p, rows)) <==> Supported(p, rows, s) && forall t :: Supported(p, rows, t) ==> t <= s
  {
    hide Close, Supported;
    var found := Survivors(Close(p, rows));
    forall t | Supported(p, rows, t) ensures t <= found { CloseIsGreatest(p, rows, t); }
    CloseIsGreatest(p, rows, s);
  }

  // ---------- row order ----------

  ghost predicate Reorders(order: seq<nat>, n: nat) {
    (forall i :: 0 <= i < |order| ==> order[i] < n) && forall k: nat :: k < n ==> k in order
  }

  function Reorder(rows: seq<Audit>, order: seq<nat>): (s: seq<Audit>)
    requires Reorders(order, |rows|)
    ensures |s| == |order|
  {
    seq(|order|, i requires 0 <= i < |order| => rows[order[i]])
  }

  lemma CoveredReordered(rows: seq<Audit>, order: seq<nat>)
    requires Reorders(order, |rows|)
    ensures Covered(Reorder(rows, order)) == Covered(rows)
  {
    var other := Reorder(rows, order);
    forall o ensures o in CellsOf(other) <==> o in CellsOf(rows) {
      if i :| 0 <= i < |rows| && rows[i].clean && o in Refs(rows[i].cells) {
        assert i as nat in order;
        var k :| 0 <= k < |order| && order[k] == i;
        assert other[k] == rows[i];
      }
    }
    forall o ensures o in ExtrasOf(other) <==> o in ExtrasOf(rows) {
      if i :| 0 <= i < |rows| && rows[i].clean && o in rows[i].extra {
        assert i as nat in order;
        var k :| 0 <= k < |order| && order[k] == i;
        assert other[k] == rows[i];
      }
    }
  }

  lemma PassReordered(p: Policy, rows: seq<Audit>, order: seq<nat>)
    requires Reorders(order, |rows|)
    ensures Pass(p, Reorder(rows, order)) == Reorder(Pass(p, rows), order)
  {
    hide Covered, Judge;
    CoveredReordered(rows, order);
  }

  lemma SurvivorsReordered(a: seq<Audit>, b: seq<Audit>, order: seq<nat>)
    requires |a| == |b| && Reorders(order, |a|) && Survivors(a) <= Survivors(b)
    ensures Survivors(Reorder(a, order)) == Survivors(Reorder(b, order)) <==> Survivors(a) == Survivors(b)
  {
    var c, d := Reorder(a, order), Reorder(b, order);
    if Survivors(a) != Survivors(b) {
      var i: nat :| i in Survivors(b) && i !in Survivors(a);
      assert i in order;
      var k: nat :| k < |order| && order[k] == i;
      assert k in Survivors(d) && k !in Survivors(c);
    } else {
      forall k: nat | k < |order| ensures k in Survivors(c) <==> k in Survivors(d) {
        assert order[k] in Survivors(a) <==> order[k] in Survivors(b);
      }
    }
  }

  /** The outcome of every row, extra cells and leaks included, does not depend on the row order. */
  lemma {:induction false} CloseReordered(p: Policy, rows: seq<Audit>, order: seq<nat>)
    requires Reorders(order, |rows|)
    ensures Close(p, Reorder(rows, order)) == Reorder(Close(p, rows), order)
    decreases |Survivors(rows)|
  {
    hide Pass, Reorders, Survivors, Reorder;
    PassShrinks(p, rows);
    PassReordered(p, rows, order);
    SurvivorsReordered(Pass(p, rows), rows, order);
    if Survivors(Pass(p, rows)) != Survivors(rows) { CloseReordered(p, Pass(p, rows), order); }
  }

  // ---------- rows with one value ----------

  /** Rows that share a value list always carry the same extra cells while they survive. */
  ghost predicate SharedExtras(rows: seq<Audit>) {
    forall i, j :: 0 <= i < |rows| && 0 <= j < |rows| && rows[i].clean && rows[j].clean
      && rows[i].duplicates == rows[j].duplicates
      ==> rows[i].extra == rows[j].extra
  }

  lemma PassSharesExtras(p: Policy, rows: seq<Audit>)
    requires SharedExtras(rows)
    ensures SharedExtras(Pass(p, rows))
  {
    hide Covered, Leaks, Masked;
  }

  lemma {:induction false} CloseSharesExtras(p: Policy, rows: seq<Audit>)
    requires SharedExtras(rows)
    ensures SharedExtras(Close(p, rows))
    decreases |Survivors(rows)|
  {
    PassShrinks(p, rows);
    PassSharesExtras(p, rows);
    if Survivors(Pass(p, rows)) != Survivors(rows) { CloseSharesExtras(p, Pass(p, rows)); }
  }

  /** The closure leaves every surviving row one cell, its reference. */
  lemma {:induction false} CloseKeepsRows(p: Policy, rows: seq<Audit>)
    requires forall i :: 0 <= i < |rows| ==> WellMade(rows[i])
    ensures forall i :: 0 <= i < |rows| ==> WellMade(Close(p, rows)[i]) && Close(p, rows)[i].draftId == rows[i].draftId
    decreases |Survivors(rows)|
  {
    hide Covered, Leaks, Masked, Refs;
    PassShrinks(p, rows);
    if Survivors(Pass(p, rows)) != Survivors(rows) { CloseKeepsRows(p, Pass(p, rows)); }
  }
}
