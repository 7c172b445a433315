/** What emission does to each row and what each variable says, field by field. */
module NormalizerReadings {
  import opened Options
  import opened AuditRows
  import opened FreshNames
  import opened StringOrder
  import opened LeakReadings
  import opened NormalizerEmission
  import A = Aliases

  // ---------- rows leave ----------

  /** The row was clean, is not forced out under its identity or its identifier, and is eligible. */
  predicate Stays(rv: Review, r: Audit) {
    r.clean && r.draftId !in rv.forced && rv.slug(r.draftId) !in rv.forced && rv.eligible(r.reference)
  }

  /** The rows of s all stay, and every cell that repeats the value of one of them is the cell or an
      extra cell of one of them. */
  ghost predicate CoverTogether(rv: Review, rows: seq<Audit>, s: set<nat>) {
    forall i :: i in s ==> i < |rows| && Stays(rv, rows[i]) && forall o :: o in rows[i].duplicates ==>
      exists j :: j in s && j < |rows| && (o == rows[j].reference || o in rows[j].extra)
  }

  lemma StandsIs(rv: Review, rows: seq<Audit>, s: set<nat>)
    ensures Stands(ScreenAll(rv, rows), s) <==> CoverTogether(rv, rows, s)
  {
    var screened := ScreenAll(rv, rows);
    forall i: nat | i < |rows|
      ensures screened[i].clean <==> Stays(rv, rows[i])
      ensures screened[i].duplicates == rows[i].duplicates && screened[i].reference == rows[i].reference
      ensures screened[i].extra == rows[i].extra
    {
    }
    hide ScreenAll, Stays;
    forall o ensures ShownBy(screened, s, o)
      <==> exists j :: j in s && j < |rows| && (o == rows[j].reference || o in rows[j].extra)
    {
    }
  }

  /** The rows that are emitted cover together, and every set of rows that covers together is emitted. */
  lemma EmittedRowsAre(rv: Review, rows: seq<Audit>, t: set<nat>)
    ensures var after := Final(rv, rows);
      && |after| == |rows|
      && CoverTogether(rv, rows, set i: nat | i < |rows| && after[i].clean)
      && (CoverTogether(rv, rows, t) ==> forall i :: i in t ==> i < |rows| && after[i].clean)
  {
    hide Stands, CoverTogether, Reclose, ScreenAll;
    var after := Final(rv, rows);
    RecloseIsGreatest(ScreenAll(rv, rows), t);
    StandsIs(rv, rows, t);
    StandsIs(rv, rows, Left(after));
    assert Left(after) == set i: nat | i < |rows| && after[i].clean;
  }

  lemma {:induction false} RecloseRow(rows: seq<Audit>, i: nat)
    requires i < |rows|
    ensures var after := Reclose(rows)[i];
      after == rows[i] || (rows[i].clean && after == rows[i].(clean := false, code := "duplicate_value_leak"))
    decreases |Left(rows)|
  {
    hide Shown;
    RePassShrinks(rows);
    if Left(RePass(rows)) != Left(rows) { RecloseRow(RePass(rows), i); }
  }

  /** A row that is not clean is left alone; a clean one that leaves does so under the first code that
      applies: forced out, not eligible, or else its value can be read elsewhere. */
  lemma RowAfterReview(rv: Review, rows: seq<Audit>, i: nat)
    requires i < |rows|
    ensures var before, after := rows[i], Final(rv, rows)[i];
      after == if !before.clean || after.clean then before
        else before.(clean := false, code :=
          if before.draftId in rv.forced || rv.slug(before.draftId) in rv.forced then "forced_exclusion"
          else if !rv.eligible(before.reference) then "not_research_input"
          else "duplicate_value_leak")
  {
    hide Reclose;
    RecloseRow(ScreenAll(rv, rows), i);
  }

  // ---------- one variable ----------

  lemma SmallestFirst(x: string, rest: seq<string>)
    requires StrictlySorted(rest) && forall y :: y in rest ==> Less(x, y)
    ensures StrictlySorted([x] + rest)
  {
    hide Less;
    forall i, j | 0 <= i < j < |[x] + rest| ensures Less(([x] + rest)[i], ([x] + rest)[j]) {
      assert rest[j - 1] in rest;
    }
  }

  lemma NothingToSort()
    ensures StrictlySorted([])
  {
  }

  lemma {:induction false} ListingIsSorted(s: set<string>)
    ensures StrictlySorted(Listing(s)) && forall o :: o in Listing(s) <==> o in s
    decreases |s|
  {
    hide Less, StrictlySorted;
    if s == {} {
      NothingToSort();
    } else {
      var x := Listing(s)[0];
      var rest := Listing(s - {x});
      assert LeastOf(s, x) && Listing(s) == [x] + rest;
      ListingIsSorted(s - {x});
      forall y | y in rest ensures Less(x, y) { assert y in s - {x}; }
      SmallestFirst(x, rest);
    }
  }

  /** The variable of a cell of a row; the row's extra cells ride on its first one. */
  lemma VariableIs(rv: Review, r: Audit, i: nat, id: string)
    requires i < |r.cells|
    ensures var v, c := VariableOf(rv, r, i, id), r.cells[i];
      && v.id == id && v.cells == [c.sheet + "!" + c.address] && v.body == rv.describe(r.draftId, c, r.multi)
      && v.notes == rv.notes(r.draftId) && v.sources == rv.sources(r.draftId, r.reference)
      && v.extra.Some? && StrictlySorted(v.extra.value)
      && forall o :: o in v.extra.value <==> i == 0 && o in r.extra
  {
    ListingIsSorted(r.extra);
    NothingToSort();
  }

  lemma IdsAre(vars: seq<A.Variable>)
    ensures A.Elements(A.Ids(vars)) == set v | v in vars :: v.id
  {
    forall x ensures x in A.Elements(A.Ids(vars)) <==> exists v :: v in vars && v.id == x {
      if x in A.Elements(A.Ids(vars)) {
        var i :| 0 <= i < |vars| && A.Ids(vars)[i] == x;
        assert vars[i] in vars;
      }
      if v :| v in vars && v.id == x { A.IdIn(vars, v); }
    }
  }

  /** Its identifier: the row's own, or with the cell's sheet and address where the reference names
      several cells; if that is taken, the longer one with the first free number from 2 on. */
  lemma IdentifierIs(rv: Review, r: Audit, i: nat, vars: seq<A.Variable>)
    requires i < |r.cells|
    ensures
      var id, c, taken := NewId(rv, r, i, vars), r.cells[i], set v | v in vars :: v.id;
      var long := rv.slug(r.draftId) + "-" + rv.slug(c.sheet) + "-" + rv.lower(c.address);
      var plain := if r.multi then long else rv.slug(r.draftId);
      if plain !in taken then id == plain
      else exists n: nat ::
        && n >= 2 && id == long + "-" + Decimal(n) && id !in taken
        && forall k: nat :: 2 <= k < n ==> long + "-" + Decimal(k) in taken
  {
    hide Decimal;
    var taken := set v | v in vars :: v.id;
    assert A.Elements(A.Ids(vars)) == taken by { IdsAre(vars); }
    var long := Stem(rv, r, r.cells[i]);
    if FirstName(rv, r, r.cells[i]) in taken {
      var id := FirstFree(long, taken, 2);
      var m: nat :| m >= 2 && id == Numbered(long, m) && forall k: nat :: 2 <= k < m ==> Numbered(long, k) in taken;
      forall k: nat | 2 <= k < m ensures long + "-" + Decimal(k) in taken { assert Numbered(long, k) in taken; }
    }
  }

  /** Numbers are written in decimal digits. */
  lemma DecimalIs(n: nat, d: nat)
    requires d < 10
    ensures Decimal(d) == [(48 + d) as char]
    ensures n > 0 ==> Decimal(10 * n + d) == Decimal(n) + [(48 + d) as char]
  {
    assert (10 * n + d) / 10 == n && (10 * n + d) % 10 == d;
    assert Digit(d) == (48 + d) as char;
  }

  // ---------- all variables ----------

  /** The rows that stay, in their order. */
  function Staying(rows: seq<Audit>): (r: seq<Audit>) {
    if rows == [] then []
    else
      var before, last := Staying(rows[..|rows| - 1]), rows[|rows| - 1];
      if last.clean then before + [last] else before
  }

  /** Those of the identifiers whose row belongs to this draft row. */
  function Under(rows: seq<Audit>, ids: seq<string>, draftId: string): (r: seq<string>)
    requires |ids| == |rows|
  {
    if rows == [] then []
    else
      var before, last := Under(rows[..|rows| - 1], ids[..|rows| - 1], draftId), |rows| - 1;
      if rows[last].draftId == draftId then before + [ids[last]] else before
  }

  lemma {:induction false} UnderNothing(rows: seq<Audit>, ids: seq<string>, draftId: string)
    requires |ids| == |rows| && forall r :: r in rows ==> r.draftId != draftId
    ensures Under(rows, ids, draftId) == []
  {
    if rows != [] { UnderNothing(rows[..|rows| - 1], ids[..|rows| - 1], draftId); }
  }

  lemma OneDraft(rv: Review, r: Audit, vars: seq<A.Variable>)
    requires |r.cells| == 1
    ensures DraftCells(rv, r, 0, vars) == vars + [VariableOf(rv, r, 0, NewId(rv, r, 0, vars))]
  {
    hide NewId, VariableOf;
    var more := vars + [VariableOf(rv, r, 0, NewId(rv, r, 0, vars))];
    assert DraftCells(rv, r, 1, more) == more;
  }

  lemma UnderGrows(rows: seq<Audit>, ids: seq<string>, r: Audit, id: string, draftId: string)
    requires |ids| == |rows|
    ensures Under(rows + [r], ids + [id], draftId)
      == Under(rows, ids, draftId) + if r.draftId == draftId then [id] else []
  {
    assert (rows + [r])[..|rows|] == rows && (ids + [id])[..|rows|] == ids;
  }

  ghost predicate InOrder(rv: Review, rows: seq<Audit>, d: Drafts) {
    && |d.vars| == |rows|
    && (forall j :: 0 <= j < |rows| ==> |rows[j].cells| == 1 && d.vars[j] == VariableOf(rv, rows[j], 0, d.vars[j].id))
    && (forall x :: x in d.included <==> exists r :: r in rows && r.draftId == x)
    && forall x :: x in d.included ==> d.included[x] == Under(rows, A.Ids(d.vars), x)
  }

  lemma DraftRowInOrder(rv: Review, rows: seq<Audit>, r: Audit, d: Drafts)
    requires InOrder(rv, rows, d) && r.clean && |r.cells| == 1
    ensures InOrder(rv, rows + [r], DraftRow(rv, r, d))
  {
    hide VariableOf, NewId, DraftCells, Under;
    var id := NewId(rv, r, 0, d.vars);
    OneDraft(rv, r, d.vars);
    VariableId(rv, r, 0, id);
    var v := VariableOf(rv, r, 0, id);
    var e := DraftRow(rv, r, d);
    assert e.vars == d.vars + [v];
    assert A.Ids(e.vars) == A.Ids(d.vars) + [id];
    assert A.Ids(e.vars)[|d.vars|..] == [id];
    forall x | x in e.included ensures e.included[x] == Under(rows + [r], A.Ids(e.vars), x) {
      UnderGrows(rows, A.Ids(d.vars), r, id, x);
      if x !in d.included { UnderNothing(rows, A.Ids(d.vars), x); }
    }
    forall x ensures x in e.included <==> exists q :: q in rows + [r] && q.draftId == x {
      if x == r.draftId { assert r in rows + [r]; }
      if x in d.included {
        var q :| q in rows && q.draftId == x;
        assert q in rows + [r];
      }
    }
  }

  lemma DraftNothing(rv: Review, r: Audit, d: Drafts)
    requires !r.clean
    ensures DraftRow(rv, r, d) == d
  {
  }

  /** One variable for each row that stays, in the order of the rows, and under each draft row the
      identifiers of its own rows' variables in that order. */
  lemma {:induction false} DraftsInOrder(rv: Review, rows: seq<Audit>)
    requires forall i :: 0 <= i < |rows| && rows[i].clean ==> |rows[i].cells| == 1
    ensures var d, staying := DraftAll(rv, rows), Staying(rows);
      && |d.vars| == |staying|
      && (forall j :: 0 <= j < |staying| ==>
          |staying[j].cells| == 1 && d.vars[j] == VariableOf(rv, staying[j], 0, d.vars[j].id))
      && (forall x :: x in d.included <==> exists r :: r in staying && r.draftId == x)
      && forall x :: x in d.included ==> d.included[x] == Under(staying, A.Ids(d.vars), x)
  {
    hide DraftRow, VariableOf, Under;
    if rows != [] {
      var front, last := rows[..|rows| - 1], rows[|rows| - 1];
      DraftsInOrder(rv, front);
      if last.clean {
        DraftRowInOrder(rv, Staying(front), last, DraftAll(rv, front));
      } else {
        DraftNothing(rv, last, DraftAll(rv, front));
      }
    }
  }

  // ---------- the rows left out ----------

  /** The places of the rows that did not stay. */
  function Out(rows: seq<Audit>): (r: set<nat>) { set i: nat | i < |rows| && !rows[i].clean }

  lemma OutGrows(front: seq<Audit>, last: Audit)
    ensures |Out(front + [last])| == |Out(front)| + if last.clean then 0 else 1
    ensures |Out([])| == 0
  {
    var rows := front + [last];
    var more: set<nat> := if last.clean then {} else {|front|};
    forall i: nat ensures i in Out(rows) <==> i in Out(front) || i in more {
      if i < |front| { assert rows[i] == front[i]; }
    }
    assert Out(rows) == Out(front) + more;
    assert Out([]) == {};
  }

  /** The cells left out, one entry for each row that did not stay, with its code. */
  lemma {:induction false} CellExclusionsAre(rows: seq<Audit>, e: Exclusion)
    ensures e in CellExclusions(rows)
      <==> exists r :: r in rows && !r.clean && e == Exclusion(r.draftId, r.reference, r.code)
    ensures |CellExclusions(rows)| == |set i: nat | i < |rows| && !rows[i].clean|
  {
    assert (set i: nat | i < |rows| && !rows[i].clean) == Out(rows);
    if rows == [] {
      OutGrows([], Audit("", "", [], false, {}, true, {}, {}, ""));
    } else {
      var front, last := rows[..|rows| - 1], rows[|rows| - 1];
      assert rows == front + [last];
      CellExclusionsAre(front, e);
      assert (set i: nat | i < |front| && !front[i].clean) == Out(front);
      hide Out;
      OutGrows(front, last);
    }
  }

  /** A draft row is left out under the code of the first of its rows that did not stay. */
  lemma {:induction false} ExcludedUnder(rows: seq<Audit>, included: map<string, seq<string>>, x: string)
    requires x in Excluded(rows, included)
    ensures x !in included && exists i: nat ::
      && i < |rows| && rows[i].draftId == x && !rows[i].clean && Excluded(rows, included)[x] == rows[i].code
      && forall h: nat :: h < i && rows[h].draftId == x ==> rows[h].clean
  {
    var front, last := rows[..|rows| - 1], rows[|rows| - 1];
    assert rows == front + [last];
    if x in Excluded(front, included) {
      ExcludedUnder(front, included, x);
      var i: nat :| i < |front| && front[i].draftId == x && !front[i].clean
        && Excluded(front, included)[x] == front[i].code
        && forall h: nat :: h < i && front[h].draftId == x ==> front[h].clean;
      assert rows[i] == front[i];
      assert forall h: nat :: h < i ==> rows[h] == front[h];
    } else {
      forall h: nat | h < |front| && front[h].draftId == x ensures front[h].clean {
        ExcludedKeys(front, included, x);
      }
      assert forall h: nat :: h < |front| ==> rows[h] == front[h];
    }
  }
}
