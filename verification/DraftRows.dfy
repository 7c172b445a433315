/** From the references of a draft row to its audited cells, and what a row without any does to the
    generated script. */
module DraftRows {
  import opened Options
  import opened AuditRows
  import opened NormalizerEmission
  import A = Aliases

  /** A reference read from a draft's prose: text that is none, or a cell or run of cells of a sheet
      under its raised name. */
  datatype Target =
    | Unread(text: string)
    | Area(text: string, sheet: string, firstCol: nat, firstRow: nat, lastCol: nat, lastRow: nat)

  /** What is audited: a cell, or what could not be read as one. No code means the cell is typed. */
  datatype Atom = Atom(sheet: Option<string>, address: string, code: string)

  datatype DraftRow = DraftRow(id: string, targets: seq<Target>)

  /** The sheets under their raised names, the text of an address, and what stands in a cell: no code
      for a typed cell of the baseline. */
  datatype Workbook = Workbook(
    sheets: map<string, string>,
    address: (nat, nat) -> string,
    status: (string, string) -> string)

  const NO_REFERENCE := Atom(None, "", "unparsable_reference")

  // ---------- the cells of a reference ----------

  function ColumnCells(book: Workbook, col: nat, first: nat, last: nat): (r: seq<string>)
    decreases last + 1 - first
  {
    if first > last then [] else [book.address(col, first)] + ColumnCells(book, col, first + 1, last)
  }

  function AreaCells(book: Workbook, firstCol: nat, firstRow: nat, lastCol: nat, lastRow: nat): (r: seq<string>)
    decreases lastCol + 1 - firstCol
  {
    if firstCol > lastCol then []
    else
      ColumnCells(book, firstCol, firstRow, lastRow) + AreaCells(book, firstCol + 1, firstRow, lastCol, lastRow)
  }

  /** The sheet a reference names, if there is one, and its cells column by column. */
  function Expand(book: Workbook, t: Target): (r: (Option<string>, seq<string>)) {
    match t
    case Unread(_) => (None, [])
    case Area(_, sheet, firstCol, firstRow, lastCol, lastRow) =>
      if sheet !in book.sheets then (None, [])
      else (Some(book.sheets[sheet]), AreaCells(book, firstCol, firstRow, lastCol, lastRow))
  }

  /** A run on a known sheet whose last column or row comes before its first. */
  predicate Backward(book: Workbook, t: Target) {
    t.Area? && t.sheet in book.sheets && (t.lastCol < t.firstCol || t.lastRow < t.firstRow)
  }

  lemma {:induction false} EmptyArea(book: Workbook, firstCol: nat, firstRow: nat, lastCol: nat, lastRow: nat)
    ensures AreaCells(book, firstCol, firstRow, lastCol, lastRow) == [] <==> lastCol < firstCol || lastRow < firstRow
    decreases lastCol + 1 - firstCol
  {
    if firstCol <= lastCol {
      if firstRow <= lastRow { assert ColumnCells(book, firstCol, firstRow, lastRow) != []; }
      EmptyArea(book, firstCol + 1, firstRow, lastCol, lastRow);
    }
  }

  /** A reference has no cells on its sheet exactly when it runs backward. */
  lemma ExpandsToNothing(book: Workbook, t: Target)
    ensures Expand(book, t).0.Some? && Expand(book, t).1 == [] <==> Backward(book, t)
  {
    if t.Area? { EmptyArea(book, t.firstCol, t.firstRow, t.lastCol, t.lastRow); }
  }

  // ---------- the atoms of a draft row ----------

  type Seen = set<(string, string)>

  function AddCells(book: Workbook, sheet: string, cells: seq<string>, seen: Seen): (r: (seq<Atom>, Seen)) {
    if cells == [] then ([], seen)
    else if (sheet, cells[0]) in seen then AddCells(book, sheet, cells[1..], seen)
    else
      var (atoms, all) := AddCells(book, sheet, cells[1..], seen + {(sheet, cells[0])});
      ([Atom(Some(sheet), cells[0], book.status(sheet, cells[0]))] + atoms, all)
  }

  function AddTargets(book: Workbook, targets: seq<Target>, seen: Seen): (r: seq<Atom>) {
    if targets == [] then []
    else
      var (sheet, cells) := Expand(book, targets[0]);
      if sheet.None? then [Atom(None, targets[0].text, "unknown_sheet")] + AddTargets(book, targets[1..], seen)
      else
        var (atoms, all) := AddCells(book, sheet.value, cells, seen);
        atoms + AddTargets(book, targets[1..], all)
  }

  function Atoms(book: Workbook, targets: seq<Target>): (r: seq<Atom>) {
    (if targets == [] then [NO_REFERENCE] else []) + AddTargets(book, targets, {})
  }

  method CollectCells(book: Workbook, sheet: string, cells: seq<string>, before: Seen)
    returns (atoms: seq<Atom>, seen: Seen)
    ensures (atoms, seen) == AddCells(book, sheet, cells, before)
  {
    atoms, seen := [], before;
    ghost var all := AddCells(book, sheet, cells, before);
    assert cells[0..] == cells && [] + all.0 == all.0;
    var i := 0;
    while i < |cells|
      invariant 0 <= i <= |cells|
      invariant AddCells(book, sheet, cells[i..], seen).1 == all.1
      invariant atoms + AddCells(book, sheet, cells[i..], seen).0 == all.0
    {
      assert cells[i..][1..] == cells[i + 1..];
      var c := cells[i];
      if (sheet, c) !in seen {
        ghost var done, rest := atoms, AddCells(book, sheet, cells[i + 1..], seen + {(sheet, c)}).0;
        seen := seen + {(sheet, c)};
        atoms := atoms + [Atom(Some(sheet), c, book.status(sheet, c))];
        assert done + ([Atom(Some(sheet), c, book.status(sheet, c))] + rest) == atoms + rest;
      }
      i := i + 1;
    }
    assert cells[|cells|..] == [] && atoms + [] == atoms;
  }

  /** Each cell once, in the order the references name them; a draft row without references gets one
      entry for that. */
  method CollectAtoms(book: Workbook, targets: seq<Target>) returns (atoms: seq<Atom>)
    ensures atoms == Atoms(book, targets)
  {
    hide AddCells, Expand;
    atoms := if targets == [] then [NO_REFERENCE] else [];
    var seen: Seen := {};
    assert targets[0..] == targets;
    var i := 0;
    while i < |targets|
      invariant 0 <= i <= |targets|
      invariant atoms + AddTargets(book, targets[i..], seen) == Atoms(book, targets)
    {
      assert targets[i..][1..] == targets[i + 1..];
      ghost var done := atoms;
      var (sheet, cells) := Expand(book, targets[i]);
      if sheet.None? {
        atoms := atoms + [Atom(None, targets[i].text, "unknown_sheet")];
        assert done + ([Atom(None, targets[i].text, "unknown_sheet")] + AddTargets(book, targets[i + 1..], seen))
          == atoms + AddTargets(book, targets[i + 1..], seen);
      } else {
        var more, all := CollectCells(book, sheet.value, cells, seen);
        seen := all;
        atoms := atoms + more;
        assert done + (more + AddTargets(book, targets[i + 1..], seen))
          == atoms + AddTargets(book, targets[i + 1..], seen);
      }
      i := i + 1;
    }
    assert targets[|targets|..] == [] && atoms + [] == atoms;
  }

  lemma {:induction false} NothingAdded(book: Workbook, targets: seq<Target>)
    ensures AddTargets(book, targets, {}) == [] <==> forall t :: t in targets ==> Backward(book, t)
  {
    if targets != [] {
      hide Expand, Backward;
      ExpandsToNothing(book, targets[0]);
      assert targets == [targets[0]] + targets[1..];
      NothingAdded(book, targets[1..]);
    }
  }

  /** Every reference of the row runs backward, and there is one. */
  predicate AllBackward(book: Workbook, targets: seq<Target>) {
    targets != [] && forall t :: t in targets ==> Backward(book, t)
  }

  /** A draft row has nothing audited exactly when it has references and all of them run backward. */
  lemma NothingAudited(book: Workbook, targets: seq<Target>)
    ensures Atoms(book, targets) == [] <==> AllBackward(book, targets)
  {
    hide Backward, AddTargets;
    NothingAdded(book, targets);
  }

  // ---------- the whole draft ----------

  function Ids(draft: seq<DraftRow>): (r: seq<string>)
    ensures |r| == |draft| && forall i :: 0 <= i < |draft| ==> r[i] == draft[i].id
  {
    seq(|draft|, i requires 0 <= i < |draft| => draft[i].id)
  }

  /** One audited row for each atom, under the identity of its draft row. */
  function AuditIds(book: Workbook, draft: seq<DraftRow>): (r: seq<string>) {
    if draft == [] then []
    else seq(|Atoms(book, draft[0].targets)|, _ => draft[0].id) + AuditIds(book, draft[1..])
  }

  lemma {:induction false} AuditedIff(book: Workbook, draft: seq<DraftRow>, x: string)
    ensures x in AuditIds(book, draft) <==> exists d :: d in draft && d.id == x && !AllBackward(book, d.targets)
  {
    if draft != [] {
      hide Atoms, AllBackward;
      var first, rest := draft[0], draft[1..];
      NothingAudited(book, first.targets);
      AuditedIff(book, rest, x);
      var own := seq(|Atoms(book, first.targets)|, _ => first.id);
      assert draft == [first] + rest;
      if Atoms(book, first.targets) != [] { assert own[0] == first.id; }
      assert x in own <==> Atoms(book, first.targets) != [] && x == first.id;
    }
  }

  lemma IdIs(draft: seq<DraftRow>, d: DraftRow)
    requires d in draft
    ensures d.id in Ids(draft)
  {
    var i :| 0 <= i < |draft| && draft[i] == d;
    assert Ids(draft)[i] == d.id;
  }

  lemma SameRow(draft: seq<DraftRow>, d: DraftRow, e: DraftRow)
    requires A.NoRepeats(Ids(draft)) && d in draft && e in draft && d.id == e.id
    ensures d == e
  {
    var i :| 0 <= i < |draft| && draft[i] == d;
    var j :| 0 <= j < |draft| && draft[j] == e;
    assert Ids(draft)[i] == Ids(draft)[j];
  }

  /** The script accepts its own tables exactly when no draft row is repeated and none has references
      that all run backward. */
  lemma ScriptAcceptsDraft(rv: Review, book: Workbook, draft: seq<DraftRow>, rows: seq<Audit>)
    requires Emission(rv, rows).Emitted? && |rows| == |AuditIds(book, draft)|
    requires forall i :: 0 <= i < |rows| ==> rows[i].draftId == AuditIds(book, draft)[i]
    ensures ScriptOutcome(Ids(draft), Emission(rv, rows)).Dispositions?
      <==> A.NoRepeats(Ids(draft)) && forall d :: d in draft ==> !AllBackward(book, d.targets)
  {
    hide Emission, ScriptOutcome, AuditIds, AllBackward, A.NoRepeats;
    var ids, audited := Ids(draft), AuditIds(book, draft);
    forall x ensures x in audited <==> exists i :: 0 <= i < |rows| && rows[i].draftId == x {
      if i :| 0 <= i < |rows| && rows[i].draftId == x { assert audited[i] in audited; }
    }
    forall i | 0 <= i < |rows| ensures rows[i].draftId in ids {
      assert audited[i] in audited;
      AuditedIff(book, draft, audited[i]);
      var d :| d in draft && d.id == audited[i] && !AllBackward(book, d.targets);
      IdIs(draft, d);
    }
    ScriptAccepts(rv, rows, ids);
    if A.NoRepeats(ids) {
      forall d | d in draft ensures d.id in audited <==> !AllBackward(book, d.targets) {
        AuditedIff(book, draft, d.id);
        if e :| e in draft && e.id == d.id && !AllBackward(book, e.targets) { SameRow(draft, d, e); }
      }
      forall d | d in draft ensures d.id in ids { IdIs(draft, d); }
      forall x | x in ids ensures exists d :: d in draft && d.id == x {
        var i :| 0 <= i < |ids| && ids[i] == x;
        assert draft[i] in draft;
      }
    }
  }

  // ---------- at one draft ----------

  lemma NothingEmitted(rv: Review)
    ensures Emission(rv, []) == Emitted([], map[], map[], [])
  {
  }

  /** A draft of one row that names the cells B3:A1 backward: nothing is audited, and the script stops at it. */
  lemma BackwardStopsScript(rv: Review, address: (nat, nat) -> string, status: (string, string) -> string)
    ensures var book := Workbook(map["S" := "S"], address, status);
      var row := DraftRow("r1", [Area("S!B3:A1", "S", 2, 3, 1, 1)]);
      AuditIds(book, [row]) == [] && ScriptOutcome(Ids([row]), Emission(rv, [])) == Unresolved("r1")
  {
    var book := Workbook(map["S" := "S"], address, status);
    var row := DraftRow("r1", [Area("S!B3:A1", "S", 2, 3, 1, 1)]);
    NothingAudited(book, row.targets);
    assert [row][1..] == [] && AuditIds(book, [row]) == AuditIds(book, []);
    NothingEmitted(rv);
    assert Ids([row]) == ["r1"];
  }
}
