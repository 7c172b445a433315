/** The audited cells of one workbook, and which of them may be masked. */
module AuditRows {
  import opened Options

  /** The cells that hold one value. Rows with the same value share the list itself. */
  class RefList {
    const refs: seq<string>

    constructor (refs: seq<string>)
      ensures this.refs == refs
    {
      this.refs := refs;
    }
  }

  datatype Cell = Cell(sheet: string, address: string, value: string)

  function RefOf(c: Cell): (r: string) { c.sheet + "!" + c.address }

  const LEAK := "duplicate_value_leak"

  /** What is known of a row, as a value. */
  datatype Audit = Audit(draftId: string, reference: string, cells: seq<Cell>, multi: bool, duplicates: set<string>,
                         clean: bool, extra: set<string>, leaks: set<string>, code: string)

  /** A clean row is exactly one cell, and that is its reference. */
  predicate WellMade(r: Audit) {
    r.clean ==> |r.cells| == 1 && r.reference == RefOf(r.cells[0])
  }

  function Elements(refs: seq<string>): (r: set<string>) { set r | r in refs }

  class Row {
    const draftId: string
    const reference: string
    const cells: seq<Cell>
    const multi: bool
    const duplicates: RefList
    var clean: bool
    var extra: set<string>
    var leaks: set<string>
    var code: string

    function Now(): (r: Audit)
      reads this
    {
      Audit(draftId, reference, cells, multi, Elements(duplicates.refs), clean, extra, leaks, code)
    }

    /** One atom of a draft row: a cell of a known sheet, or what could not be read as one. */
    constructor (draftId: string, sheet: Option<string>, address: string, value: string, code: string, multi: bool,
                 duplicates: RefList)
      requires code == "" ==> sheet.Some?
      ensures this.draftId == draftId && this.multi == multi && this.duplicates == duplicates
      ensures this.reference == (if sheet.Some? then sheet.value + "!" + address else address)
      ensures this.cells == (if code == "" then [Cell(sheet.value, address, value)] else [])
      ensures this.clean == (code == "") && this.extra == {} && this.leaks == {} && this.code == code
      ensures WellMade(Now())
    {
      this.draftId, this.multi, this.duplicates := draftId, multi, duplicates;
      this.reference := if sheet.Some? then sheet.value + "!" + address else address;
      this.cells := if code == "" then [Cell(sheet.value, address, value)] else [];
      this.clean, this.extra, this.leaks, this.code := code == "", {}, {}, code;
    }
  }

  /** Some of the first n rows was clean before a pass and is not after it. */
  ghost predicate SomeFell(was: seq<Audit>, now: seq<Audit>, n: nat) {
    exists j :: 0 <= j < n && j < |was| && j < |now| && was[j].clean && !now[j].clean
  }

  lemma NoneFell(was: seq<Audit>, now: seq<Audit>)
    ensures !SomeFell(was, now, 0)
  {
  }

  lemma FellStep(was: seq<Audit>, now: seq<Audit>, i: nat)
    requires i < |was| == |now|
    ensures SomeFell(was, now, i + 1) <==> SomeFell(was, now, i) || (was[i].clean && !now[i].clean)
  {
  }

  function Refs(cells: seq<Cell>): (r: set<string>) { set c | c in cells :: RefOf(c) }

  function Snapshot(rows: seq<Row>): (s: seq<Audit>)
    reads set i | 0 <= i < |rows| :: rows[i]
    ensures |s| == |rows|
  {
    seq(|rows|, i requires 0 <= i < |rows| reads set i | 0 <= i < |rows| :: rows[i] => rows[i].Now())
  }

  ghost predicate Distinct(rows: seq<Row>) {
    forall i, j :: 0 <= i < j < |rows| ==> rows[i] != rows[j]
  }
}
