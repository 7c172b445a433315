/** From the surviving rows to the emitted variables: review, a second closure, one variable per
    cell, the two row maps, and the merging of aliases. */
module NormalizerEmission {
  import opened Options
  import opened AuditRows
  import opened FreshNames
  import opened StringOrder
  import A = Aliases

  const FORCED := "forced_exclusion"
  const NOT_RESEARCH := "not_research_input"

  /** What the review files and the draft say, and how texts are turned into identifiers. */
  datatype Review = Review(
    forced: set<string>,
    eligible: string -> bool,
    slug: string -> string,
    lower: string -> string,
    describe: (string, Cell, bool) -> string,
    notes: string -> Option<string>,
    sources: (string, string) -> seq<string>,
    reading: A.Reading)

  // ---------- rows leave ----------

  predicate IsForced(rv: Review, draftId: string) { draftId in rv.forced || rv.slug(draftId) in rv.forced }

  function Screen(rv: Review, r: Audit): (result: Audit) {
    if !r.clean then r
    else if IsForced(rv, r.draftId) then r.(clean := false, code := FORCED)
    else if !rv.eligible(r.reference) then r.(clean := false, code := NOT_RESEARCH)
    else r
  }

  function ScreenAll(rv: Review, rows: seq<Audit>): (s: seq<Audit>)
    ensures |s| == |rows|
  {
    seq(|rows|, i requires 0 <= i < |rows| => Screen(rv, rows[i]))
  }

  function Shown(rows: seq<Audit>): (r: set<string>) {
    (set i | 0 <= i < |rows| && rows[i].clean :: rows[i].reference)
      + (set i, o | 0 <= i < |rows| && rows[i].clean && o in rows[i].extra :: o)
  }

  function Recheck(r: Audit, covered: set<string>): (result: Audit) {
    if r.clean && !(r.duplicates <= covered) then r.(clean := false, code := LEAK) else r
  }

  function Rechecked(rows: seq<Audit>, covered: set<string>): (s: seq<Audit>)
    ensures |s| == |rows|
  {
    seq(|rows|, i requires 0 <= i < |rows| => Recheck(rows[i], covered))
  }

  function RePass(rows: seq<Audit>): (s: seq<Audit>)
    ensures |s| == |rows|
  {
    Rechecked(rows, Shown(rows))
  }

  function Left(rows: seq<Audit>): (r: set<nat>) {
    set i: nat | i < |rows| && rows[i].clean
  }

  lemma RePassShrinks(rows: seq<Audit>)
    ensures Left(RePass(rows)) <= Left(rows)
    ensures Left(RePass(rows)) != Left(rows) ==> |Left(RePass(rows))| < |Left(rows)|
    ensures Left(RePass(rows)) == Left(rows) ==> RePass(rows) == rows
  {
    hide Shown;
    var next := RePass(rows);
    if Left(next) != Left(rows) {
      assert Left(rows) == Left(next) + (Left(rows) - Left(next));
    } else {
      forall i: nat | i < |rows| ensures next[i] == rows[i] {
        assert i in Left(next) <==> i in Left(rows);
      }
    }
  }

  function Reclose(rows: seq<Audit>): (s: seq<Audit>)
    ensures |s| == |rows|
    decreases |Left(rows)|
  {
    RePassShrinks(rows);
    var next := RePass(rows);
    if Left(next) == Left(rows) then next else Reclose(next)
  }

  /** The rows as they stand when variables are made from them. */
  function Final(rv: Review, rows: seq<Audit>): (s: seq<Audit>)
    ensures |s| == |rows|
  {
    Reclose(ScreenAll(rv, rows))
  }

  // ---------- the rows as the program updates them ----------

  method ForceOut(rv: Review, rows: seq<Row>)
    requires Distinct(rows)
    modifies set i | 0 <= i < |rows| :: rows[i]
    ensures forall i :: 0 <= i < |rows| ==>
              rows[i].Now() == if rows[i].clean == old(rows[i].clean) then old(rows[i].Now())
                else old(rows[i].Now()).(clean := false, code := FORCED)
    ensures forall i :: 0 <= i < |rows| ==> rows[i].clean == (old(rows[i].clean) && !IsForced(rv, rows[i].draftId))
  {
    var i := 0;
    while i < |rows|
      invariant 0 <= i <= |rows|
      invariant forall j :: i <= j < |rows| ==> rows[j].Now() == old(rows[j].Now())
      invariant forall j :: 0 <= j < i ==>
                  rows[j].Now() == if rows[j].clean == old(rows[j].clean) then old(rows[j].Now())
                    else old(rows[j].Now()).(clean := false, code := FORCED)
      invariant forall j :: 0 <= j < i ==> rows[j].clean == (old(rows[j].clean) && !IsForced(rv, rows[j].draftId))
    {
      hide IsForced, Elements;
      assert rows[i].Now() == old(rows[i].Now());
      if rows[i].clean && IsForced(rv, rows[i].draftId) { rows[i].clean, rows[i].code := false, FORCED; }
      i := i + 1;
    }
  }

  method ScreenRows(rv: Review, rows: seq<Row>)
    requires Distinct(rows)
    modifies set i | 0 <= i < |rows| :: rows[i]
    ensures Snapshot(rows) == ScreenAll(rv, old(Snapshot(rows)))
  {
    ForceOut(rv, rows);
    ghost var mid := Snapshot(rows);
    var i := 0;
    while i < |rows|
      invariant 0 <= i <= |rows|
      invariant forall j :: i <= j < |rows| ==> rows[j].Now() == mid[j]
      invariant forall j :: 0 <= j < i ==> rows[j].Now() == Screen(rv, old(rows[j].Now()))
    {
      hide IsForced, Elements;
      assert rows[i].Now() == mid[i];
      if rows[i].clean && !rv.eligible(rows[i].reference) { rows[i].clean, rows[i].code := false, NOT_RESEARCH; }
      i := i + 1;
    }
    assert Snapshot(rows) == ScreenAll(rv, old(Snapshot(rows)));
  }

  method ShowAll(rows: seq<Row>) returns (covered: set<string>)
    ensures covered == Shown(Snapshot(rows))
  {
    covered := {};
    var i := 0;
    while i < |rows|
      invariant 0 <= i <= |rows|
      invariant forall o ::
        o in covered <==> exists j :: 0 <= j < i && rows[j].clean && (o == rows[j].reference || o in rows[j].extra)
    {
      if rows[i].clean { covered := covered + {rows[i].reference} + rows[i].extra; }
      i := i + 1;
    }
    ghost var s := Snapshot(rows);
    forall o ensures o in covered <==> o in Shown(s) {
      if o in covered {
        var j :| 0 <= j < |rows| && rows[j].clean && (o == rows[j].reference || o in rows[j].extra);
        assert s[j] == rows[j].Now();
      }
      if o in Shown(s) {
        var j :| 0 <= j < |s| && s[j].clean && (o == s[j].reference || o in s[j].extra);
        assert s[j] == rows[j].Now();
      }
    }
  }

  ghost predicate MemoHolds(memo: map<RefList, bool>, covered: set<string>) {
    forall g :: g in memo ==> memo[g] == !(Elements(g.refs) <= covered)
  }

  method RecheckRow(r: Row, covered: set<string>, memo: map<RefList, bool>)
    returns (after: map<RefList, bool>, dropped: bool)
    requires MemoHolds(memo, covered)
    modifies r
    ensures MemoHolds(after, covered) && r.Now() == Recheck(old(r.Now()), covered)
    ensures dropped <==> old(r.Now()).clean && !r.Now().clean
  {
    after, dropped := memo, false;
    if r.duplicates !in memo {
      after := memo[r.duplicates := exists o :: o in r.duplicates.refs && o !in covered];
    }
    if r.clean && after[r.duplicates] { r.clean, r.code, dropped := false, LEAK, true; }
  }

  method NoTests(covered: set<string>) returns (memo: map<RefList, bool>)
    ensures MemoHolds(memo, covered)
  {
    memo := map[];
  }

  method RecheckAll(rows: seq<Row>, covered: set<string>, ghost was: seq<Audit>) returns (dropped: bool)
    requires Distinct(rows) && |was| == |rows| && forall j :: 0 <= j < |rows| ==> rows[j].Now() == was[j]
    modifies set i | 0 <= i < |rows| :: rows[i]
    ensures forall j :: 0 <= j < |rows| ==> rows[j].Now() == Recheck(was[j], covered)
    ensures dropped <==> SomeFell(was, Rechecked(was, covered), |rows|)
  {
    hide Recheck, MemoHolds, Row.Now, SomeFell;
    NoneFell(was, Rechecked(was, covered));
    var memo := NoTests(covered);
    dropped := false;
    var i := 0;
    while i < |rows|
      invariant 0 <= i <= |rows|
      invariant MemoHolds(memo, covered)
      invariant forall j :: 0 <= j < i ==> rows[j].Now() == Recheck(was[j], covered)
      invariant forall j :: i <= j < |rows| ==> rows[j].Now() == was[j]
      invariant dropped <==> SomeFell(was, Rechecked(was, covered), i)
    {
      FellStep(was, Rechecked(was, covered), i);
      var fell;
      memo, fell := RecheckRow(rows[i], covered, memo);
      dropped := dropped || fell;
      i := i + 1;
    }
  }

  lemma DropMeans(was: seq<Audit>, now: seq<Audit>)
    requires now == RePass(was)
    ensures Left(now) != Left(was) <==> exists j :: 0 <= j < |was| && was[j].clean && !now[j].clean
  {
    hide Shown;
    if j :| 0 <= j < |was| && was[j].clean && !now[j].clean {
      assert j in Left(was) && j !in Left(now);
    }
  }

  lemma RePassDone(rows: seq<Row>, was: seq<Audit>, covered: set<string>)
    requires |was| == |rows| && covered == Shown(was)
    requires forall j :: 0 <= j < |rows| ==> rows[j].Now() == Recheck(was[j], covered)
    ensures Snapshot(rows) == RePass(was)
    ensures Left(Snapshot(rows)) != Left(was) <==> SomeFell(was, Rechecked(was, covered), |rows|)
  {
    hide Recheck, Shown, Row.Now, Left;
    var now := Snapshot(rows);
    assert now == RePass(was);
    DropMeans(was, now);
  }

  method RunRePass(rows: seq<Row>) returns (dropped: bool)
    requires Distinct(rows)
    modifies set i | 0 <= i < |rows| :: rows[i]
    ensures Snapshot(rows) == RePass(old(Snapshot(rows)))
    ensures dropped <==> Left(Snapshot(rows)) != Left(old(Snapshot(rows)))
  {
    ghost var was := Snapshot(rows);
    assert forall j :: 0 <= j < |rows| ==> rows[j].Now() == was[j];
    hide *;
    var covered := ShowAll(rows);
    dropped := RecheckAll(rows, covered, was);
    RePassDone(rows, was, covered);
  }

  method CloseAgain(rows: seq<Row>)
    requires Distinct(rows)
    modifies set i | 0 <= i < |rows| :: rows[i]
    ensures Snapshot(rows) == Reclose(old(Snapshot(rows)))
  {
    ghost var start := Snapshot(rows);
    var dropped := true;
    while dropped
      invariant if dropped then Reclose(Snapshot(rows)) == Reclose(start) else Snapshot(rows) == Reclose(start)
      decreases dropped, |Left(Snapshot(rows))|
    {
      RePassShrinks(Snapshot(rows));
      dropped := RunRePass(rows);
    }
  }

  // ---------- what the second closure leaves ----------

  ghost predicate ShownBy(rows: seq<Audit>, s: set<nat>, o: string) {
    exists i :: i in s && i < |rows| && (o == rows[i].reference || o in rows[i].extra)
  }

  ghost predicate Stands(rows: seq<Audit>, s: set<nat>) {
    forall i :: i in s ==> i < |rows| && rows[i].clean && forall o :: o in rows[i].duplicates ==> ShownBy(rows, s, o)
  }

  /** Only `clean` and `code` change. */
  ghost predicate SameRows(a: seq<Audit>, b: seq<Audit>) {
    |a| == |b| && forall i :: 0 <= i < |a| ==>
      a[i].draftId == b[i].draftId && a[i].reference == b[i].reference && a[i].cells == b[i].cells
        && a[i].multi == b[i].multi
      && a[i].duplicates == b[i].duplicates && a[i].extra == b[i].extra
  }

  lemma RePassKeepsStanding(rows: seq<Audit>, t: set<nat>)
    requires Stands(rows, t)
    ensures Stands(RePass(rows), t)
  {
    var next := RePass(rows);
    forall i | i in t ensures next[i] == rows[i] {
      forall o | o in rows[i].duplicates ensures o in Shown(rows) { assert ShownBy(rows, t, o); }
    }
    forall i, o | i in t && o in next[i].duplicates ensures ShownBy(next, t, o) {
      assert ShownBy(rows, t, o);
      var j :| j in t && j < |rows| && (o == rows[j].reference || o in rows[j].extra);
      assert next[j] == rows[j];
    }
  }

  lemma SettledStands(rows: seq<Audit>)
    requires RePass(rows) == rows
    ensures Stands(rows, Left(rows)) && forall i :: i in Left(rows) ==> rows[i].duplicates <= Shown(rows)
  {
    forall i, o | i in Left(rows) && o in rows[i].duplicates ensures ShownBy(rows, Left(rows), o) && o in Shown(rows) {
      assert RePass(rows)[i] == rows[i];
      assert o in Shown(rows);
      var j :| 0 <= j < |rows| && rows[j].clean && (o == rows[j].reference || o in rows[j].extra);
      assert j in Left(rows);
    }
  }

  lemma SameAfterPass(rows: seq<Audit>)
    ensures SameRows(RePass(rows), rows)
  {
    hide Shown;
  }

  lemma StandsMoves(a: seq<Audit>, b: seq<Audit>, s: set<nat>)
    requires SameRows(a, b) && Left(a) <= Left(b) && Stands(a, s)
    ensures Stands(b, s)
  {
    forall i | i in s ensures i < |b| && b[i].clean { assert i in Left(a); }
    forall i, o | i in s && o in b[i].duplicates ensures ShownBy(b, s, o) { assert ShownBy(a, s, o); }
  }

  /** The second closure keeps the greatest set of rows that hide all of each other's duplicates. */
  lemma {:induction false} RecloseIsGreatest(rows: seq<Audit>, t: set<nat>)
    ensures var s := Left(Reclose(rows)); Stands(rows, s) && (Stands(rows, t) ==> t <= s)
    ensures SameRows(Reclose(rows), rows) && Left(Reclose(rows)) <= Left(rows)
    ensures forall i :: i in Left(Reclose(rows)) ==> rows[i].duplicates <= Shown(Reclose(rows))
    decreases |Left(rows)|
  {
    hide RePass, Shown;
    RePassShrinks(rows);
    var next := RePass(rows);
    assert SameRows(next, rows) by { SameAfterPass(rows); }
    if Stands(rows, t) { RePassKeepsStanding(rows, t); }
    if Left(next) == Left(rows) {
      SettledStands(rows);
    } else {
      RecloseIsGreatest(next, t);
      StandsMoves(next, rows, Left(Reclose(next)));
    }
  }

  lemma FinalRows(rv: Review, rows: seq<Audit>)
    ensures var f := Final(rv, rows);
      && SameRows(f, rows)
      && (forall i :: 0 <= i < |f| && f[i].clean ==>
        rows[i].clean && !IsForced(rv, f[i].draftId) && rv.eligible(f[i].reference))
      && (forall i :: 0 <= i < |f| && f[i].clean ==> f[i].duplicates <= Shown(f))
  {
    hide Reclose, Shown;
    var f := Final(rv, rows);
    RecloseIsGreatest(ScreenAll(rv, rows), {});
    forall i | 0 <= i < |f| && f[i].clean
      ensures rows[i].clean && !IsForced(rv, f[i].draftId) && rv.eligible(f[i].reference) && f[i].duplicates <= Shown(f)
    {
      assert i in Left(f);
      assert i in Left(ScreenAll(rv, rows));
    }
  }

  // ---------- one variable per cell ----------

  predicate LeastOf(s: set<string>, x: string) {
    x in s && forall y :: y in s ==> y == x || Less(x, y)
  }

  lemma LeastOfOne(s: set<string>, x: string)
    requires x in s && s - {x} == {}
    ensures LeastOf(s, x)
  {
    hide Less;
    forall y | y in s ensures y == x { assert y !in s - {x}; }
  }

  lemma LeastOfTwo(s: set<string>, x: string, m: string)
    requires x in s && LeastOf(s - {x}, m)
    ensures LeastOf(s, x) || LeastOf(s, m)
  {
    hide Less;
    LessTotal(x, m);
    forall y | y in s ensures (Less(x, m) ==> y == x || Less(x, y)) && (Less(m, x) ==> y == m || Less(m, y)) {
      if y != x {
        assert y in s - {x};
        if Less(x, m) && y != m { LessTransitive(x, m, y); }
      }
    }
  }

  lemma {:induction false} LeastExists(s: set<string>)
    requires s != {}
    ensures exists x :: LeastOf(s, x)
  {
    hide Less, LeastOf;
    var x :| x in s;
    var rest := s - {x};
    if rest == {} {
      LeastOfOne(s, x);
    } else {
      LeastExists(rest);
      var m :| LeastOf(rest, m);
      LeastOfTwo(s, x, m);
    }
  }

  lemma LeastUnique(s: set<string>, a: string, b: string)
    requires LeastOf(s, a) && LeastOf(s, b)
    ensures a == b
  {
    hide Less;
    if a != b {
      LessTransitive(a, b, a);
      LessIrreflexive(a);
    }
  }

  /** A set as a sorted list. */
  function Listing(s: set<string>): (r: seq<string>)
    ensures forall x :: x in r <==> x in s
    decreases |s|
  {
    if s == {} then []
    else
      LeastExists(s);
      assert forall a, b :: LeastOf(s, a) && LeastOf(s, b) ==> a == b by {
        forall a, b | LeastOf(s, a) && LeastOf(s, b) ensures a == b { LeastUnique(s, a, b); }
      }
      var x :| x in s && LeastOf(s, x);
      [x] + Listing(s - {x})
  }

  function Stem(rv: Review, r: Audit, c: Cell): (result: string) {
    rv.slug(r.draftId) + "-" + rv.slug(c.sheet) + "-" + rv.lower(c.address)
  }

  function FirstName(rv: Review, r: Audit, c: Cell): (result: string) {
    if r.multi then Stem(rv, r, c) else rv.slug(r.draftId)
  }

  /** The variable of cell i of a row; the row's extra cells ride on the first one. */
  function VariableOf(rv: Review, r: Audit, i: nat, id: string): (result: A.Variable)
    requires i < |r.cells|
  {
    A.Variable(id, [RefOf(r.cells[i])], Some(if i == 0 then Listing(r.extra) else []),
      rv.describe(r.draftId, r.cells[i], r.multi),
      rv.notes(r.draftId), rv.sources(r.draftId, r.reference))
  }

  function NewId(rv: Review, r: Audit, i: nat, vars: seq<A.Variable>): (id: string)
    requires i < |r.cells|
    ensures id !in A.Ids(vars)
  {
    var used := A.Elements(A.Ids(vars));
    var first := FirstName(rv, r, r.cells[i]);
    if first !in used then first else FirstFree(Stem(rv, r, r.cells[i]), used, 2)
  }

  function DraftCells(rv: Review, r: Audit, i: nat, vars: seq<A.Variable>): (s: seq<A.Variable>)
    requires i <= |r.cells|
    ensures vars <= s && |s| == |vars| + |r.cells| - i
    decreases |r.cells| - i
  {
    if i == |r.cells| then vars
    else DraftCells(rv, r, i + 1, vars + [VariableOf(rv, r, i, NewId(rv, r, i, vars))])
  }

  datatype Drafts = Drafts(vars: seq<A.Variable>, included: map<string, seq<string>>)

  function DraftRow(rv: Review, r: Audit, d: Drafts): (result: Drafts) {
    if !r.clean then d
    else
      var vars := DraftCells(rv, r, 0, d.vars);
      Drafts(vars, d.included[r.draftId := (if r.draftId in d.included then d.included[r.draftId] else [])
        + A.Ids(vars)[|d.vars|..]])
  }

  function DraftAll(rv: Review, rows: seq<Audit>): (r: Drafts) {
    if rows == [] then Drafts([], map[]) else DraftRow(rv, rows[|rows| - 1], DraftAll(rv, rows[..|rows| - 1]))
  }

  // ---------- the rows left out ----------

  datatype Exclusion = Exclusion(draftId: string, reference: string, code: string)

  function CellExclusions(rows: seq<Audit>): (r: seq<Exclusion>) {
    if rows == [] then []
    else
      var r := rows[|rows| - 1];
      CellExclusions(rows[..|rows| - 1]) + (if r.clean then [] else [Exclusion(r.draftId, r.reference, r.code)])
  }

  /** A draft row is excluded for its first failing cell, and only if none of its cells is in. */
  function Excluded(rows: seq<Audit>, included: map<string, seq<string>>): (r: map<string, string>) {
    if rows == [] then map[]
    else
      var r, before := rows[|rows| - 1], Excluded(rows[..|rows| - 1], included);
      if r.clean || r.draftId in included || r.draftId in before then before else before[r.draftId := r.code]
  }

  // ---------- the whole emission ----------

  datatype Outcome =
    | Emitted(variables: seq<A.Variable>, included: map<string, seq<string>>, excluded: map<string, string>,
              cellExclusions: seq<Exclusion>)
    | Diagnosis(problem: A.Problem)

  function NotExcluded(included: map<string, seq<string>>,
                       excluded: map<string, string>): (r: map<string, seq<string>>) {
    map d | d in included && d !in excluded :: included[d]
  }

  function Kept(vars: seq<A.Variable>, keep: set<string>): (r: seq<A.Variable>) {
    if vars == [] then []
      else Kept(vars[..|vars| - 1], keep) + (if vars[|vars| - 1].id in keep then [vars[|vars| - 1]] else [])
  }

  function Emission(rv: Review, rows: seq<Audit>): (r: Outcome) {
    var f := Final(rv, rows);
    var d := DraftAll(rv, f);
    var excluded := Excluded(f, d.included);
    var included := NotExcluded(d.included, excluded);
    match A.Coalesce(rv.reading, Kept(d.vars, A.Named(included)), included)
    case Merged(variables, projected, _, _) => Emitted(variables, projected, excluded, CellExclusions(f))
    case Refused(problem) => Diagnosis(problem)
  }

  lemma IdsTail(vars: seq<A.Variable>, added: seq<A.Variable>)
    ensures A.Ids(vars + added)[|vars|..] == A.Ids(added)
  {
  }

  lemma NewIdIs(rv: Review, r: Audit, i: nat, vars: seq<A.Variable>, id: string)
    requires i < |r.cells|
    requires var first, used := FirstName(rv, r, r.cells[i]), A.Elements(A.Ids(vars));
      id == if first !in used then first else FirstFree(Stem(rv, r, r.cells[i]), used, 2)
    ensures id == NewId(rv, r, i, vars)
  {
  }

  lemma IdsStep(vars: seq<A.Variable>, v: A.Variable)
    ensures A.Ids(vars + [v]) == A.Ids(vars) + [v.id]
    ensures A.Elements(A.Ids(vars + [v])) == A.Elements(A.Ids(vars)) + {v.id}
  {
    assert A.Ids(vars + [v]) == A.Ids(vars) + [v.id];
  }

  lemma VariableId(rv: Review, r: Audit, i: nat, id: string)
    requires i < |r.cells|
    ensures VariableOf(rv, r, i, id).id == id
  {
  }

  method DraftCellsOf(rv: Review, r: Row, vars: seq<A.Variable>) returns (added: seq<A.Variable>)
    ensures vars + added == DraftCells(rv, r.Now(), 0, vars)
  {
    hide VariableOf, Stem, FirstName, FirstFree, Elements, A.Ids, A.Elements, NewId;
    added := [];
    var used := A.Elements(A.Ids(vars));
    assert vars + added == vars;
    var i := 0;
    while i < |r.cells|
      invariant 0 <= i <= |r.cells|
      invariant used == A.Elements(A.Ids(vars + added))
      invariant DraftCells(rv, r.Now(), i, vars + added) == DraftCells(rv, r.Now(), 0, vars)
    {
      var c := r.cells[i];
      var id := NextFree(FirstName(rv, r.Now(), c), Stem(rv, r.Now(), c), used);
      NewIdIs(rv, r.Now(), i, vars + added, id);
      var v := VariableOf(rv, r.Now(), i, id);
      VariableId(rv, r.Now(), i, id);
      IdsStep(vars + added, v);
      assert vars + (added + [v]) == vars + added + [v];
      added := added + [v];
      used := used + {id};
      i := i + 1;
    }
  }

  method DraftVariables(rv: Review, rows: seq<Row>) returns (d: Drafts)
    ensures d == DraftAll(rv, Snapshot(rows))
  {
    var vars, included := [], map[];
    var i := 0;
    assert Snapshot(rows)[..0] == [];
    while i < |rows|
      invariant 0 <= i <= |rows|
      invariant Drafts(vars, included) == DraftAll(rv, Snapshot(rows)[..i])
    {
      hide DraftCells, VariableOf, NewId, Elements, A.Ids;
      var r := rows[i];
      ghost var s := Snapshot(rows);
      assert s[..i + 1][..i] == s[..i] && s[..i + 1][i] == r.Now();
      if r.clean {
        var added := DraftCellsOf(rv, r, vars);
        IdsTail(vars, added);
        vars := vars + added;
        var ids := A.Ids(added);
        included := included[r.draftId := (if r.draftId in included then included[r.draftId] else []) + ids];
      }
      i := i + 1;
    }
    assert Snapshot(rows)[..|rows|] == Snapshot(rows);
    d := Drafts(vars, included);
  }

  lemma FreshStep(vars: seq<A.Variable>, v: A.Variable)
    requires A.NoRepeats(A.Ids(vars)) && v.id !in A.Ids(vars)
    ensures A.NoRepeats(A.Ids(vars + [v]))
  {
    IdsStep(vars, v);
  }

  method ExcludeRows(rows: seq<Row>, included: map<string, seq<string>>)
    returns (excluded: map<string, string>, cells: seq<Exclusion>)
    ensures excluded == Excluded(Snapshot(rows), included) && cells == CellExclusions(Snapshot(rows))
  {
    excluded, cells := map[], [];
    var i := 0;
    while i < |rows|
      invariant 0 <= i <= |rows|
      invariant excluded == Excluded(Snapshot(rows)[..i], included)
      invariant cells == CellExclusions(Snapshot(rows)[..i])
    {
      hide Elements;
      var r := rows[i];
      ghost var s := Snapshot(rows);
      assert s[..i + 1][..i] == s[..i] && s[..i + 1][i] == r.Now();
      if !r.clean {
        cells := cells + [Exclusion(r.draftId, r.reference, r.code)];
        if r.draftId !in included && r.draftId !in excluded { excluded := excluded[r.draftId := r.code]; }
      }
      i := i + 1;
    }
    assert Snapshot(rows)[..|rows|] == Snapshot(rows);
  }

  method Emit(rv: Review, rows: seq<Row>) returns (outcome: Outcome)
    requires Distinct(rows)
    modifies set i | 0 <= i < |rows| :: rows[i]
    ensures outcome == Emission(rv, old(Snapshot(rows)))
    ensures Snapshot(rows) == Final(rv, old(Snapshot(rows)))
  {
    hide Reclose, ScreenAll, DraftAll, Excluded, CellExclusions, A.Coalesce, Kept, Elements;
    ScreenRows(rv, rows);
    CloseAgain(rows);
    var d := DraftVariables(rv, rows);
    var excluded, cells := ExcludeRows(rows, d.included);
    var included := NotExcluded(d.included, excluded);
    var vars := Kept(d.vars, A.Named(included));
    var r := A.CoalesceAliases(rv.reading, vars, included);
    match r
    case Merged(variables, projected, _, _) => outcome := Emitted(variables, projected, excluded, cells);
    case Refused(problem) => outcome := Diagnosis(problem);
  }

  // ---------- what the drafts hold ----------

  /** The variable stands for a cell of a surviving row. */
  ghost predicate VariableFrom(rv: Review, v: A.Variable, rows: seq<Audit>) {
    exists i, k :: 0 <= i < |rows| && rows[i].clean && 0 <= k < |rows[i].cells| && v == VariableOf(rv, rows[i], k, v.id)
  }

  ghost predicate HasVariable(rv: Review, vars: seq<A.Variable>, r: Audit, k: nat)
    requires k < |r.cells|
  {
    exists v :: v in vars && v == VariableOf(rv, r, k, v.id)
  }

  ghost predicate DraftAt(rv: Review, r: Audit, s: seq<A.Variable>, base: int, k: nat) {
    k < |r.cells| && 0 <= base + k < |s| && s[base + k] == VariableOf(rv, r, k, s[base + k].id)
  }

  lemma FirstDraft(rv: Review, r: Audit, i: nat, vars: seq<A.Variable>, v: A.Variable, s: seq<A.Variable>)
    requires i < |r.cells| && vars + [v] <= s && v == VariableOf(rv, r, i, v.id)
    ensures DraftAt(rv, r, s, |vars| - i, i)
  {
    hide VariableOf;
    assert s[|vars|] == (vars + [v])[|vars|];
  }

  /** The variables from cell i on stand behind those before. */
  lemma {:induction false} DraftCellsHold(rv: Review, r: Audit, i: nat, vars: seq<A.Variable>, base: int)
    requires i <= |r.cells| && A.NoRepeats(A.Ids(vars)) && base == |vars| - i
    ensures var s := DraftCells(rv, r, i, vars);
      && A.NoRepeats(A.Ids(s)) && vars <= s && |s| == |vars| + |r.cells| - i
      && forall k: nat :: i <= k < |r.cells| ==> DraftAt(rv, r, s, base, k)
    decreases |r.cells| - i
  {
    if i < |r.cells| {
      hide NewId, VariableOf, A.Ids, A.NoRepeats, DraftAt;
      var id := NewId(rv, r, i, vars);
      var v := VariableOf(rv, r, i, id);
      VariableId(rv, r, i, id);
      FreshStep(vars, v);
      DraftCellsHold(rv, r, i + 1, vars + [v], base);
      FirstDraft(rv, r, i, vars, v, DraftCells(rv, r, i, vars));
    }
  }

  lemma Has(rv: Review, vars: seq<A.Variable>, r: Audit, k: nat, v: A.Variable)
    requires k < |r.cells| && v in vars && v == VariableOf(rv, r, k, v.id)
    ensures HasVariable(rv, vars, r, k)
  {
  }

  lemma DraftCellsAre(rv: Review, r: Audit, vars: seq<A.Variable>)
    requires A.NoRepeats(A.Ids(vars))
    ensures var s := DraftCells(rv, r, 0, vars);
      && A.NoRepeats(A.Ids(s)) && vars <= s
      && (forall k: nat :: k < |r.cells| ==> HasVariable(rv, s, r, k))
      && (forall v :: v in s ==> v in vars || exists k :: 0 <= k < |r.cells| && v == VariableOf(rv, r, k, v.id))
  {
    hide DraftCells, VariableOf, A.Ids, A.NoRepeats, HasVariable;
    DraftCellsHold(rv, r, 0, vars, |vars|);
    var s := DraftCells(rv, r, 0, vars);
    forall k: nat | k < |r.cells| ensures HasVariable(rv, s, r, k) {
      assert DraftAt(rv, r, s, |vars|, k);
      Has(rv, s, r, k, s[|vars| + k]);
    }
    forall v | v in s ensures v in vars || exists k :: 0 <= k < |r.cells| && v == VariableOf(rv, r, k, v.id) {
      var j: nat :| j < |s| && s[j] == v;
      if j < |vars| {
        assert vars[j] == v;
      } else {
        var k: nat := j - |vars|;
        assert |s| == |vars| + |r.cells|;
        assert DraftAt(rv, r, s, |vars|, k);
      }
    }
  }

  lemma PrefixHolds<T>(a: seq<T>, b: seq<T>, x: T)
    requires a <= b && x in a
    ensures x in b
  {
    var i :| 0 <= i < |a| && a[i] == x;
    assert b[i] == x;
  }

  ghost predicate DraftsHold(rv: Review, rows: seq<Audit>, d: Drafts) {
    && A.NoRepeats(A.Ids(d.vars))
    && (forall v :: v in d.vars ==> VariableFrom(rv, v, rows))
    && (forall i :: 0 <= i < |rows| && rows[i].clean ==>
      rows[i].draftId in d.included && forall k: nat :: k < |rows[i].cells| ==> HasVariable(rv, d.vars, rows[i], k))
    && (forall x :: x in d.included ==> exists i :: 0 <= i < |rows| && rows[i].clean && rows[i].draftId == x)
    && A.Named(d.included) == A.Elements(A.Ids(d.vars))
  }

  lemma NamedGrows(rv: Review, r: Audit, d: Drafts)
    requires A.Named(d.included) == A.Elements(A.Ids(d.vars))
    ensures A.Named(DraftRow(rv, r, d).included) == A.Elements(A.Ids(DraftRow(rv, r, d).vars))
  {
    hide VariableOf;
    if r.clean {
      var e := DraftRow(rv, r, d);
      var vars := DraftCells(rv, r, 0, d.vars);
      var ids, all := A.Ids(vars)[|d.vars|..], A.Ids(vars);
      assert all[..|d.vars|] == A.Ids(d.vars);
      assert all == A.Ids(d.vars) + ids;
      forall x ensures x in A.Named(e.included) <==> x in A.Named(d.included) || x in ids {
        if x in A.Named(d.included) {
          var y :| y in d.included && x in d.included[y];
          assert y in e.included && x in e.included[y];
        }
        if x in ids { assert x in e.included[r.draftId]; }
        if x in A.Named(e.included) {
          var y :| y in e.included && x in e.included[y];
          if y != r.draftId { assert y in d.included && x in d.included[y]; }
        }
      }
    }
  }

  lemma DraftRowHolds(rv: Review, front: seq<Audit>, r: Audit, d: Drafts)
    requires DraftsHold(rv, front, d)
    ensures DraftsHold(rv, front + [r], DraftRow(rv, r, d))
  {
    hide DraftCells, VariableOf, A.NoRepeats, A.Ids;
    var rows, e := front + [r], DraftRow(rv, r, d);
    assert rows[|front|] == r;
    if r.clean { DraftCellsAre(rv, r, d.vars); }
    assert d.vars <= e.vars;
    forall v | v in e.vars ensures VariableFrom(rv, v, rows) {
      if v in d.vars {
        assert VariableFrom(rv, v, front);
        var i, k :| 0 <= i < |front| && front[i].clean && 0 <= k < |front[i].cells|
          && v == VariableOf(rv, front[i], k, v.id);
        assert rows[i] == front[i];
      } else {
        var k :| 0 <= k < |r.cells| && v == VariableOf(rv, r, k, v.id);
        assert rows[|front|] == r;
      }
    }
    forall i, k: nat | 0 <= i < |rows| && rows[i].clean && k < |rows[i].cells|
      ensures HasVariable(rv, e.vars, rows[i], k) {
      if i < |front| {
        assert HasVariable(rv, d.vars, front[i], k);
        var v :| v in d.vars && v == VariableOf(rv, front[i], k, v.id);
        PrefixHolds(d.vars, e.vars, v);
      }
    }
    forall x | x in e.included ensures exists i :: 0 <= i < |rows| && rows[i].clean && rows[i].draftId == x {
      if x in d.included {
        var i :| 0 <= i < |front| && front[i].clean && front[i].draftId == x;
        assert rows[i] == front[i];
      }
    }
    NamedGrows(rv, r, d);
  }

  lemma {:induction false} DraftAllHolds(rv: Review, rows: seq<Audit>)
    ensures DraftsHold(rv, rows, DraftAll(rv, rows))
  {
    if rows == [] {
    } else {
      var front, r := rows[..|rows| - 1], rows[|rows| - 1];
      DraftAllHolds(rv, front);
      DraftRowHolds(rv, front, r, DraftAll(rv, front));
      assert rows == front + [r];
    }
  }

  // ---------- the two row maps ----------

  lemma {:induction false} ExcludedKeys(rows: seq<Audit>, included: map<string, seq<string>>, x: string)
    ensures x in Excluded(rows, included)
        <==> x !in included && exists i :: 0 <= i < |rows| && !rows[i].clean && rows[i].draftId == x
  {
    if rows != [] {
      var front, r := rows[..|rows| - 1], rows[|rows| - 1];
      ExcludedKeys(front, included, x);
      if i :| 0 <= i < |front| && !front[i].clean && front[i].draftId == x { assert rows[i] == front[i]; }
      if i :| 0 <= i < |rows| && !rows[i].clean && rows[i].draftId == x {
        if i < |front| { assert front[i] == rows[i]; }
      }
    }
  }

  lemma {:induction false} KeptAll(vars: seq<A.Variable>, keep: set<string>)
    requires forall v :: v in vars ==> v.id in keep
    ensures Kept(vars, keep) == vars
  {
    if vars != [] {
      assert vars == vars[..|vars| - 1] + [vars[|vars| - 1]];
      KeptAll(vars[..|vars| - 1], keep);
    }
  }

  /** Neither filter before the merge removes anything. */
  lemma FiltersKeepAll(rv: Review, rows: seq<Audit>)
    ensures var f := Final(rv, rows);
      var d := DraftAll(rv, f);
      NotExcluded(d.included, Excluded(f, d.included)) == d.included && Kept(d.vars, A.Named(d.included)) == d.vars
  {
    hide DraftAll, Final, Excluded;
    var f := Final(rv, rows);
    var d := DraftAll(rv, f);
    DraftAllHolds(rv, f);
    forall x | x in d.included ensures x !in Excluded(f, d.included) { ExcludedKeys(f, d.included, x); }
    assert NotExcluded(d.included, Excluded(f, d.included)) == d.included;
    forall v | v in d.vars ensures v.id in A.Named(d.included) { A.IdIn(d.vars, v); }
    KeptAll(d.vars, A.Named(d.included));
  }

  /** The rows that are in and the rows that are out: every audited draft row is in exactly one. */
  lemma RowsAreDisposed(rv: Review, rows: seq<Audit>, x: string)
    requires Emission(rv, rows).Emitted?
    ensures var e := Emission(rv, rows);
      && (x in e.included <==> exists i :: 0 <= i < |rows| && Final(rv, rows)[i].clean && rows[i].draftId == x)
      && (x in e.excluded <==> x !in e.included && exists i :: 0 <= i < |rows| && rows[i].draftId == x)
  {
    hide DraftAll, Final, Excluded, VariableFrom, HasVariable, A.Coalesce, A.Ids, A.NoRepeats;
    var f := Final(rv, rows);
    var d := DraftAll(rv, f);
    DraftAllHolds(rv, f);
    FinalRows(rv, rows);
    ExcludedKeys(f, d.included, x);
    FiltersKeepAll(rv, rows);
    A.MergedSize(rv.reading, d.vars, d.included);
    assert forall i :: 0 <= i < |f| ==> f[i].draftId == rows[i].draftId;
  }

  // ---------- end to end ----------

  ghost predicate Masks(vars: seq<A.Variable>, o: string) {
    exists m :: m in vars && (o in m.cells || (m.extra.Some? && o in m.extra.value))
  }

  lemma EmittedIs(rv: Review, rows: seq<Audit>)
    requires Emission(rv, rows).Emitted?
    ensures var d := DraftAll(rv, Final(rv, rows));
      var r := A.Coalesce(rv.reading, d.vars, d.included);
      && r.Merged? && Emission(rv, rows).variables == r.variables && Emission(rv, rows).included == r.included
      && DraftsHold(rv, Final(rv, rows), d)
  {
    hide DraftAll, Final, Excluded, A.Coalesce, Kept, DraftsHold, CellExclusions;
    FiltersKeepAll(rv, rows);
    DraftAllHolds(rv, Final(rv, rows));
  }

  /** The variable's cells are the row's cell, its extra cells the row's. */
  ghost predicate Carries(m: A.Variable, r: Audit) {
    (forall c :: c in m.cells <==> c == r.reference) && m.extra.Some?
      && forall o :: o in m.extra.value <==> o in r.extra
  }

  ghost predicate Speaks(rv: Review, m: A.Variable, r: Audit)
    requires |r.cells| == 1
  {
    m.body == rv.describe(r.draftId, r.cells[0], r.multi)
      && forall s :: s in rv.sources(r.draftId, r.reference) ==> s in m.sources
  }

  lemma VariableCarries(rv: Review, r: Audit, v: A.Variable)
    requires |r.cells| == 1 && r.reference == RefOf(r.cells[0]) && v == VariableOf(rv, r, 0, v.id)
    ensures Carries(v, r) && Speaks(rv, v, r)
  {
    hide RefOf;
  }

  lemma MergedCarries(rv: Review, r: Audit, v: A.Variable, m: A.Variable)
    requires |r.cells| == 1 && Carries(v, r) && A.SameCells(m, v)
    requires m.extra.Some? && multiset(m.extra.value) == multiset(v.extra.value)
    ensures Carries(m, r)
  {
    forall o ensures o in m.extra.value <==> o in v.extra.value {
      assert o in multiset(m.extra.value) <==> o in multiset(v.extra.value);
    }
  }

  lemma CarriesSame(a: Audit, b: Audit)
    requires a.reference == b.reference && a.extra == b.extra
    ensures forall m :: Carries(m, a) <==> Carries(m, b)
  {
  }

  lemma CarriedOver(rv: Review, d: Drafts, r: Audit, v: A.Variable)
    requires A.Coalesce(rv.reading, d.vars, d.included).Merged? && v in d.vars && |r.cells| == 1 && Carries(v, r)
    requires Speaks(rv, v, r)
    ensures exists m :: m in A.Coalesce(rv.reading, d.vars, d.included).variables && Carries(m, r) && Speaks(rv, m, r)
  {
    hide A.Coalesce, Less, A.SameCells;
    var k := A.NothingIsLost(rv.reading, d.vars, d.included, v);
    var m := A.Coalesce(rv.reading, d.vars, d.included).variables[k];
    assert v.extra.Some?;
    MergedCarries(rv, r, v, m);
  }

  /** Each surviving row's cell is the cell of an emitted variable that carries the row's extra
      cells and all its sources. */
  lemma SurvivorIsEmitted(rv: Review, rows: seq<Audit>, i: nat)
    requires Emission(rv, rows).Emitted? && i < |rows| && Final(rv, rows)[i].clean
    requires forall j :: 0 <= j < |rows| ==> WellMade(rows[j])
    ensures |rows[i].cells| == 1
    ensures exists m :: m in Emission(rv, rows).variables && Carries(m, rows[i]) && Speaks(rv, m, rows[i])
  {
    hide DraftAll, Final, Emission, A.Coalesce, A.Ids, A.NoRepeats, VariableFrom, VariableOf, Less, Carries, RefOf;
    hide Shown, A.SameCells;
    EmittedIs(rv, rows);
    FinalRows(rv, rows);
    var f := Final(rv, rows);
    var d := DraftAll(rv, f);
    assert WellMade(rows[i]) && f[i].draftId in d.included && |f[i].cells| == 1;
    assert HasVariable(rv, d.vars, f[i], 0);
    var v :| v in d.vars && v == VariableOf(rv, f[i], 0, v.id);
    VariableCarries(rv, f[i], v);
    CarriedOver(rv, d, f[i], v);
    CarriesSame(rows[i], f[i]);
  }

  /** Masking is complete: every cell that holds the value of a surviving row is among the cells or
      extra cells of the emitted variables. */
  lemma EveryDuplicateIsMasked(rv: Review, rows: seq<Audit>, i: nat, o: string)
    requires Emission(rv, rows).Emitted? && i < |rows| && Final(rv, rows)[i].clean && o in rows[i].duplicates
    requires forall j :: 0 <= j < |rows| ==> WellMade(rows[j])
    ensures Masks(Emission(rv, rows).variables, o)
  {
    hide Final, Emission;
    FinalRows(rv, rows);
    var f := Final(rv, rows);
    assert o in Shown(f);
    var j :| 0 <= j < |f| && f[j].clean && (o == f[j].reference || o in f[j].extra);
    SurvivorIsEmitted(rv, rows, j);
    var m :| m in Emission(rv, rows).variables && Carries(m, rows[j]) && Speaks(rv, m, rows[j]);
  }

  lemma ExtraGiven(v: A.Variable, r: Audit)
    requires Carries(v, r)
    ensures v.extra.Some?
  {
  }

  lemma SameVariable(rv: Review, d: Drafts, v: A.Variable, k: nat, n: nat)
    requires var r := A.Coalesce(rv.reading, d.vars, d.included);
      r.Merged? && k < |r.variables| && n < |r.variables| && A.SameCells(v, r.variables[k])
        && A.SameCells(r.variables[n], v)
    ensures k == n
  {
    hide A.Coalesce;
    if k < n { A.CellSetsAreDistinct(rv.reading, d.vars, d.included, k, n); }
    if n < k { A.CellSetsAreDistinct(rv.reading, d.vars, d.included, n, k); }
  }

  lemma OriginalOf(rv: Review, d: Drafts, m: A.Variable) returns (v: A.Variable)
    requires var r := A.Coalesce(rv.reading, d.vars, d.included); r.Merged? && m in r.variables
    ensures v in d.vars && A.SameCells(m, v) && (m.extra.Some? <==> v.extra.Some?)
    ensures v.extra.Some? ==> multiset(m.extra.value) == multiset(v.extra.value)
  {
    hide A.Coalesce, Less;
    var r := A.Coalesce(rv.reading, d.vars, d.included);
    var k :| 0 <= k < |r.variables| && r.variables[k] == m;
    A.NothingIsAdded(rv.reading, d.vars, d.included, k);
    v :| v in d.vars && A.SameCells(v, m) && v.id == m.id;
    var n := A.NothingIsLost(rv.reading, d.vars, d.included, v);
    SameVariable(rv, d, v, k, n);
  }

  /** Nothing else is masked: an emitted variable's cells are the cell of one surviving row, and its
      extra cells are that row's. */
  lemma OnlySurvivorsAreEmitted(rv: Review, rows: seq<Audit>, m: A.Variable)
    requires Emission(rv, rows).Emitted? && m in Emission(rv, rows).variables
    requires forall j :: 0 <= j < |rows| ==> WellMade(rows[j])
    ensures exists i :: 0 <= i < |rows| && Final(rv, rows)[i].clean && Carries(m, rows[i])
  {
    hide DraftAll, Final, Emission, A.Coalesce, A.Ids, A.NoRepeats, HasVariable, VariableOf, Less, Carries, RefOf;
    hide Shown, A.SameCells;
    EmittedIs(rv, rows);
    FinalRows(rv, rows);
    var f := Final(rv, rows);
    var d := DraftAll(rv, f);
    var v := OriginalOf(rv, d, m);
    assert VariableFrom(rv, v, f);
    var i, c :| 0 <= i < |f| && f[i].clean && 0 <= c < |f[i].cells| && v == VariableOf(rv, f[i], c, v.id);
    assert WellMade(rows[i]) && |f[i].cells| == 1 && c == 0;
    VariableCarries(rv, f[i], v);
    assert v.extra.Some? by { ExtraGiven(v, f[i]); }
    MergedCarries(rv, f[i], v, m);
    CarriesSame(rows[i], f[i]);
  }

  /** The identities the included rows name are exactly the emitted ones, and no two emitted
      variables have the same cells. */
  lemma ReferencesMatch(rv: Review, rows: seq<Audit>)
    requires Emission(rv, rows).Emitted?
    ensures var e := Emission(rv, rows);
      && A.Named(e.included) == A.Elements(A.Ids(e.variables))
      && forall i, j :: 0 <= i < j < |e.variables| ==> !A.SameCells(e.variables[i], e.variables[j])
  {
    hide DraftAll, Final, A.Coalesce, A.NoRepeats, A.Ids, HasVariable, VariableFrom, A.SameCells, A.Named, A.Elements;
    EmittedIs(rv, rows);
    var d := DraftAll(rv, Final(rv, rows));
    A.ReferencedAreEmitted(rv.reading, d.vars, d.included);
    var e := Emission(rv, rows);
    forall i, j | 0 <= i < j < |e.variables| ensures !A.SameCells(e.variables[i], e.variables[j]) {
      A.CellSetsAreDistinct(rv.reading, d.vars, d.included, i, j);
    }
  }

  // ---------- the generated script's own checks ----------

  datatype Disposition = Included(draftId: string, ids: seq<string>) | Dropped(draftId: string, code: string)

  datatype Disposed = Dispositions(list: seq<Disposition>) | Unresolved(draftId: string) | Mismatch | NotOneToOne

  function Dispose(draftIds: seq<string>, included: map<string, seq<string>>, excluded: map<string, string>,
                   done: seq<Disposition>): (r: Disposed) {
    if draftIds == [] then Dispositions(done)
    else if draftIds[0] in included
      then Dispose(draftIds[1..], included, excluded, done + [Included(draftIds[0], included[draftIds[0]])])
    else if draftIds[0] in excluded
      then Dispose(draftIds[1..], included, excluded, done + [Dropped(draftIds[0], excluded[draftIds[0]])])
    else Unresolved(draftIds[0])
  }

  function ReferencedBy(list: seq<Disposition>): (r: set<string>) {
    set i, x | 0 <= i < |list| && list[i].Included? && x in list[i].ids :: x
  }

  function ScriptOutcome(draftIds: seq<string>, e: Outcome): (r: Disposed)
    requires e.Emitted?
  {
    match Dispose(draftIds, e.included, e.excluded, [])
    case Dispositions(list) =>
      if A.Elements(A.Ids(e.variables)) != ReferencedBy(list) then Mismatch
      else if !A.NoRepeats(draftIds) then NotOneToOne
      else Dispositions(list)
    case other => other
  }

  method RunScript(draftIds: seq<string>, e: Outcome) returns (r: Disposed)
    requires e.Emitted?
    ensures r == ScriptOutcome(draftIds, e)
  {
    var done := [];
    var i := 0;
    assert draftIds[0..] == draftIds;
    while i < |draftIds|
      invariant 0 <= i <= |draftIds|
      invariant Dispose(draftIds[i..], e.included, e.excluded, done) == Dispose(draftIds, e.included, e.excluded, [])
    {
      var id := draftIds[i];
      assert draftIds[i..][1..] == draftIds[i + 1..];
      if id in e.included {
        done := done + [Included(id, e.included[id])];
      } else if id in e.excluded {
        done := done + [Dropped(id, e.excluded[id])];
      } else {
        return Unresolved(id);
      }
      i := i + 1;
    }
    if A.Elements(A.Ids(e.variables)) != ReferencedBy(done) { return Mismatch; }
    if !A.NoRepeats(draftIds) { return NotOneToOne; }
    r := Dispositions(done);
  }

  lemma ReferencedAppend(done: seq<Disposition>, d: Disposition)
    ensures ReferencedBy(done + [d]) == ReferencedBy(done) + (if d.Included? then A.Elements(d.ids) else {})
  {
    var all := done + [d];
    forall x ensures x in ReferencedBy(all)
      <==> x in ReferencedBy(done) + (if d.Included? then A.Elements(d.ids) else {}) {
      if i :| 0 <= i < |done| && done[i].Included? && x in done[i].ids { assert all[i] == done[i]; }
      if d.Included? && x in d.ids { assert all[|done|] == d; }
    }
  }

  lemma {:induction false} DisposeIs(draftIds: seq<string>, included: map<string, seq<string>>,
                                     excluded: map<string, string>, done: seq<Disposition>)
    ensures var r := Dispose(draftIds, included, excluded, done);
      && (r.Dispositions? <==> forall x :: x in draftIds ==> x in included || x in excluded)
      && (r.Dispositions? ==>
        ReferencedBy(r.list) == ReferencedBy(done) + set x, y | x in draftIds && x in included && y in included[x] :: y)
      && (!r.Dispositions? ==> r.Unresolved? && r.draftId in draftIds)
  {
    if draftIds != [] {
      var x, rest := draftIds[0], draftIds[1..];
      assert draftIds == [x] + rest;
      var d := if x in included then [Included(x, included[x])] else if x in excluded then [Dropped(x, excluded[x])]
        else [];
      if d != [] {
        DisposeIs(rest, included, excluded, done + d);
        ReferencedAppend(done, d[0]);
      }
    }
  }

  lemma NothingReferenced()
    ensures ReferencedBy([]) == {}
  {
  }

  /** The script accepts its own tables exactly when the draft rows are distinct and each of them has an
      audited cell, whether or not the cell is in. */
  lemma ScriptAccepts(rv: Review, rows: seq<Audit>, draftIds: seq<string>)
    requires Emission(rv, rows).Emitted? && forall i :: 0 <= i < |rows| ==> rows[i].draftId in draftIds
    ensures ScriptOutcome(draftIds, Emission(rv, rows)).Dispositions?
      <==> A.NoRepeats(draftIds) && forall x :: x in draftIds ==> exists i :: 0 <= i < |rows| && rows[i].draftId == x
  {
    hide Emission, Final, A.NoRepeats, Dispose, ReferencedBy;
    var e := Emission(rv, rows);
    forall x ensures (x in e.included || x in e.excluded) <==> exists i :: 0 <= i < |rows| && rows[i].draftId == x {
      RowsAreDisposed(rv, rows, x);
    }
    DisposeIs(draftIds, e.included, e.excluded, []);
    assert ReferencedBy([]) == {} by { NothingReferenced(); }
    ReferencesMatch(rv, rows);
    assert A.Named(e.included) == set x, y | x in draftIds && x in e.included && y in e.included[x] :: y;
  }
}
