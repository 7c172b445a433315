/** The check of a masked workbook against its original. */
module MaskCheck {
  import opened Options
  import opened MaskModel
  import opened MaskSets
  import opened MaskRewrite

  datatype Faults = Faults(formula: seq<Place>, leaked: seq<Place>, lost: seq<Place>, changed: seq<Place>)

  predicate NoFaults(f: Faults) { f == Faults([], [], [], []) }

  predicate StartsEqual(s: string) { s != "" && s[0] == '=' }

  predicate Forbidden(s: string, forbidden: seq<string>) { exists f :: f in forbidden && Occurs(f, s) }

  /** A formula, or text of a formula cell that reads like one, or the text of an answer's formula. */
  predicate FormulaFault(c: CellAt, derived: set<Place>, forbidden: seq<string>) {
    || c.cell.Formula?
    || (Reads(c.cell).Some? && Reads(c.cell).value.Text?
          && ((StartsEqual(Reads(c.cell).value.s) && c.place in derived)
            || Forbidden(Reads(c.cell).value.s, forbidden)))
  }

  /** Something in a denied place, or a value that is not text in a formula's place outside the kept. */
  predicate LeakFault(c: CellAt, s: Sets, derived: set<Place>) {
    Reads(c.cell).Some? && (c.place in s.deny
      || (!Reads(c.cell).value.Text? && c.place in derived && c.place !in s.keep))
  }

  predicate SameValue(before: Value, after: Value) {
    if before.Number? && after.Number?
      then Abs(before.n - after.n) <= 0.000000001 * (if Abs(before.n) > 1.0 then Abs(before.n) else 1.0)
    else before == after
  }

  /** A cell that must still show its value: a typed one, or one of the frontier. */
  predicate MustHold(c: CellAt, s: Sets, derived: set<Place>) {
    Reads(c.cell).Some? && c.place !in s.deny && (c.place !in derived || c.place in s.frontier)
  }

  function FormulaFaults(masked: Book, derived: set<Place>, forbidden: seq<string>): (r: seq<Place>) {
    if masked == [] then []
    else
      var c := masked[|masked| - 1];
      FormulaFaults(masked[..|masked| - 1], derived, forbidden)
        + (if FormulaFault(c, derived, forbidden) then [c.place] else [])
  }

  function LeakFaults(masked: Book, s: Sets, derived: set<Place>): (r: seq<Place>) {
    if masked == [] then []
    else
      var c := masked[|masked| - 1];
      LeakFaults(masked[..|masked| - 1], s, derived) + (if LeakFault(c, s, derived) then [c.place] else [])
  }

  function LostFaults(masked: Book, original: Book, s: Sets, derived: set<Place>): (r: seq<Place>) {
    if original == [] then []
    else
      var c := original[|original| - 1];
      LostFaults(masked, original[..|original| - 1], s, derived)
      + (if MustHold(c, s, derived) && Lookup(masked, c.place).None? then [c.place] else [])
  }

  function ChangedFaults(masked: Book, original: Book, s: Sets, derived: set<Place>): (r: seq<Place>) {
    if original == [] then []
    else
      var c := original[|original| - 1];
      ChangedFaults(masked, original[..|original| - 1], s, derived)
      + (if MustHold(c, s, derived) && Lookup(masked, c.place).Some?
        && !SameValue(Reads(c.cell).value, Lookup(masked, c.place).value)
         then [c.place] else [])
  }

  function Check(masked: Book, original: Book, s: Sets, derived: set<Place>, forbidden: seq<string>): (r: Faults) {
    Faults(FormulaFaults(masked, derived, forbidden), LeakFaults(masked, s, derived),
           LostFaults(masked, original, s, derived), ChangedFaults(masked, original, s, derived))
  }

  method CheckMasked(masked: Book, s: Sets, derived: set<Place>, forbidden: seq<string>)
    returns (formula: seq<Place>, leaked: seq<Place>)
    ensures formula == FormulaFaults(masked, derived, forbidden) && leaked == LeakFaults(masked, s, derived)
  {
    formula, leaked := [], [];
    var i := 0;
    while i < |masked|
      invariant 0 <= i <= |masked|
      invariant formula == FormulaFaults(masked[..i], derived, forbidden)
      invariant leaked == LeakFaults(masked[..i], s, derived)
    {
      hide FormulaFault, LeakFault;
      assert masked[..i + 1][..i] == masked[..i];
      var c := masked[i];
      if LeakFault(c, s, derived) { leaked := leaked + [c.place]; }
      if FormulaFault(c, derived, forbidden) { formula := formula + [c.place]; }
      i := i + 1;
    }
    assert masked[..|masked|] == masked;
  }

  method CheckHeld(masked: Book, original: Book, s: Sets, derived: set<Place>)
    returns (lost: seq<Place>, changed: seq<Place>)
    ensures lost == LostFaults(masked, original, s, derived) && changed == ChangedFaults(masked, original, s, derived)
  {
    lost, changed := [], [];
    var i := 0;
    while i < |original|
      invariant 0 <= i <= |original|
      invariant lost == LostFaults(masked, original[..i], s, derived)
      invariant changed == ChangedFaults(masked, original[..i], s, derived)
    {
      hide Lookup, SameValue;
      assert original[..i + 1][..i] == original[..i];
      var c := original[i];
      if MustHold(c, s, derived) {
        var after := Lookup(masked, c.place);
        if after.None? {
          lost := lost + [c.place];
        } else if !SameValue(Reads(c.cell).value, after.value) {
          changed := changed + [c.place];
        }
      }
      i := i + 1;
    }
    assert original[..|original|] == original;
  }

  method Verify(masked: Book, original: Book, s: Sets, derived: set<Place>, forbidden: seq<string>)
    returns (faults: Faults)
    ensures faults == Check(masked, original, s, derived, forbidden)
  {
    var formula, leaked := CheckMasked(masked, s, derived, forbidden);
    var lost, changed := CheckHeld(masked, original, s, derived);
    faults := Faults(formula, leaked, lost, changed);
  }

  // ---------- when the check passes ----------

  lemma {:induction false} NoFormulaFaults(masked: Book, derived: set<Place>, forbidden: seq<string>)
    ensures FormulaFaults(masked, derived, forbidden) == []
        <==> forall i :: 0 <= i < |masked| ==> !FormulaFault(masked[i], derived, forbidden)
  {
    if masked != [] {
      hide FormulaFault;
      var front := masked[..|masked| - 1];
      NoFormulaFaults(front, derived, forbidden);
      assert forall i :: 0 <= i < |front| ==> front[i] == masked[i];
    }
  }

  lemma {:induction false} NoLeakFaults(masked: Book, s: Sets, derived: set<Place>)
    requires forall i :: 0 <= i < |masked| ==> !LeakFault(masked[i], s, derived)
    ensures LeakFaults(masked, s, derived) == []
  {
    if masked != [] {
      hide LeakFault;
      NoLeakFaults(masked[..|masked| - 1], s, derived);
    }
  }

  lemma {:induction false} NoHeldFaults(masked: Book, original: Book, s: Sets, derived: set<Place>)
    requires forall i :: 0 <= i < |original| && MustHold(original[i], s, derived) ==>
      Lookup(masked, original[i].place).Some?
        && SameValue(Reads(original[i].cell).value, Lookup(masked, original[i].place).value)
    ensures LostFaults(masked, original, s, derived) == [] && ChangedFaults(masked, original, s, derived) == []
  {
    if original != [] {
      hide Lookup, SameValue;
      NoHeldFaults(masked, original[..|original| - 1], s, derived);
    }
  }

  /** The text a cell of the original leaves behind in the masked copy, if any. */
  function SurvivingText(c: CellAt, s: Sets): (r: Option<string>) {
    match c.cell
    case Typed(Marked(Some(Text(t)))) => if c.place in s.deny then None else Some(t)
    case Formula(_, Result(Text(t))) => if c.place in s.keep then Some(t) else None
    case _ => None
  }

  /** No kept formula result reads like a formula, and no surviving text holds an answer's formula. */
  predicate Harmless(c: CellAt, s: Sets, forbidden: seq<string>) {
    var t := SurvivingText(c, s);
    t.Some? ==> !(c.cell.Formula? && StartsEqual(t.value)) && !Forbidden(t.value, forbidden)
  }

  ghost predicate Consistent(book: Book, s: Sets) {
    s.frontier <= s.keep && s.frontier !! s.deny && s.keep * s.deny !! FormulaPlaces(book)
  }

  lemma MaskedPlaces(book: Book, s: Sets)
    requires PlacesDistinct(book)
    ensures PlacesDistinct(MaskAll(book, s.keep, s.deny))
  {
    hide Mask;
  }

  lemma CellPasses(book: Book, s: Sets, forbidden: seq<string>, i: nat)
    requires PlacesDistinct(book) && Consistent(book, s) && i < |book|
    ensures var derived, after := FormulaPlaces(book), MaskAll(book, s.keep, s.deny)[i];
      && (FormulaFault(after, derived, forbidden) <==> !Harmless(book[i], s, forbidden))
      && !LeakFault(after, s, derived)
      && (MustHold(book[i], s, derived) ==>
        Reads(after.cell).Some? && SameValue(Reads(book[i].cell).value, Reads(after.cell).value))
  {
    hide Forbidden, StartsEqual;
    FormulaHere(book, i);
    var c, after := book[i], MaskAll(book, s.keep, s.deny)[i];
    assert after == c.(cell := Mask(c, s.keep, s.deny).0);
    if c.cell.Formula? && c.place in s.keep { assert c.place !in s.deny; }
  }

  ghost predicate SameHeld(masked: Book, c: CellAt) {
    Reads(c.cell).Some? && Lookup(masked, c.place).Some?
      && SameValue(Reads(c.cell).value, Lookup(masked, c.place).value)
  }

  lemma HoldsValue(c: CellAt, s: Sets, derived: set<Place>)
    ensures MustHold(c, s, derived) ==> Reads(c.cell).Some?
  {
  }

  lemma PlaceKept(book: Book, s: Sets, i: nat)
    requires i < |book|
    ensures MaskAll(book, s.keep, s.deny)[i].place == book[i].place
  {
  }

  /** A consistent mask passes the check exactly when every surviving text is harmless. */
  lemma MaskPassesIff(book: Book, s: Sets, forbidden: seq<string>)
    requires PlacesDistinct(book) && Consistent(book, s)
    ensures NoFaults(Check(MaskAll(book, s.keep, s.deny), book, s, FormulaPlaces(book), forbidden))
      <==> forall i :: 0 <= i < |book| ==> Harmless(book[i], s, forbidden)
  {
    hide FormulaFault, LeakFault, MustHold, SameValue, Harmless, Consistent, MaskAll, FormulaPlaces, Lookup, Reads;
    var masked, derived := MaskAll(book, s.keep, s.deny), FormulaPlaces(book);
    MaskedPlaces(book, s);
    forall i: nat | i < |book|
      ensures FormulaFault(masked[i], derived, forbidden) <==> !Harmless(book[i], s, forbidden)
      ensures !LeakFault(masked[i], s, derived)
      ensures MustHold(book[i], s, derived) ==> Lookup(masked, book[i].place).Some?
      ensures MustHold(book[i], s, derived) ==> SameHeld(masked, book[i])
    {
      CellPasses(book, s, forbidden, i);
      PlaceKept(book, s, i);
      LookupAt(masked, i);
      HoldsValue(book[i], s, derived);
    }
    NoFormulaFaults(masked, derived, forbidden);
    NoLeakFaults(masked, s, derived);
    forall i | 0 <= i < |book| && MustHold(book[i], s, derived)
      ensures Reads(book[i].cell).Some? { HoldsValue(book[i], s, derived); }
    NoHeldFaults(masked, book, s, derived);
  }

  // ---------- the whole run ----------

  method Run(bands: seq<Band>, mode: Mode, book: Book, proof: Option<set<Place>>, external: set<Place>,
             forbidden: seq<string>)
    returns (masked: Book, sets: Sets, faults: Faults)
    requires PlacesDistinct(book)
    ensures sets == RunSets(bands, mode, book, proof, external) && masked == MaskAll(book, sets.keep, sets.deny)
    ensures NoFaults(faults) <==> forall i :: 0 <= i < |book| ==> Harmless(book[i], sets, forbidden)
  {
    hide Check, Harmless, MaskAll, RunSets;
    sets := ComputeSets(bands, mode, book, proof, external);
    SetsAreConsistent(bands, mode, book, proof, external);
    var tally := new Tally();
    masked := MaskSheet(book, sets.keep, sets.deny, tally);
    MaskPassesIff(book, sets, forbidden);
    faults := Verify(masked, book, sets, FormulaPlaces(book), forbidden);
  }

  /** In a masked copy every typed cell outside the denied ones is untouched, every kept formula shows
      its stored result if it has one, and nothing else shows anything. A stored empty text is the one
      result that read as nothing before and reads as a text afterwards. */
  lemma MaskedGrid(book: Book, keep: set<Place>, deny: set<Place>, i: nat)
    requires i < |book|
    ensures var c, after := book[i], MaskAll(book, keep, deny)[i];
      && after.place == c.place && after.format == c.format && after.cell.Typed?
      && (c.cell.Typed? && c.place !in deny ==> after == c)
      && (c.cell.Typed? && c.place in deny ==> Reads(after.cell).None?)
      && (c.cell.Formula? && c.place in keep ==>
        && Reads(after.cell) == (if c.cell.cached.Result? then Some(c.cell.cached.value) else None)
        && (Reads(after.cell) == Reads(c.cell) <==> c.cell.cached != Result(Text(""))))
      && (c.cell.Formula? && c.place !in keep ==> Reads(after.cell).None?)
  {
    assert MaskAll(book, keep, deny)[i] == book[i].(cell := Mask(book[i], keep, deny).0);
  }

  lemma PeriodsAgree(a: Book, b: Book, cells: set<Place>)
    requires |a| == |b| && forall i :: 0 <= i < |a| ==> a[i].place == b[i].place
    requires forall i :: 0 <= i < |a| && a[i].place in cells ==> (Period(a[i]) <==> Period(b[i]))
    ensures PeriodHeaders(a, cells) == PeriodHeaders(b, cells)
  {
    hide Period;
  }

  lemma PastedAgree(a: Book, b: Book, keep: set<Place>, frontier: set<Place>, outputs: set<real>)
    requires AgreeOutside(a, b, keep)
    ensures PastedAnswers(a, frontier, outputs) == PastedAnswers(b, frontier, outputs)
  {
    forall i | 0 <= i < |a| ensures Pasted(a[i], frontier, outputs) <==> Pasted(b[i], frontier, outputs) {
      assert a[i].place == b[i].place;
      if a[i].cell.Typed? || b[i].cell.Typed? { assert a[i].cell == b[i].cell; }
    }
  }

  /** Two workbooks with the same typed cells and the same formula places give the same masked copy
      whenever their kept stored results, the period verdicts of their axis cells and the numbers their outputs show
      are the same: nothing else a formula says or shows can be read from the copy. */
  lemma CopyHidesTheRest(bands: seq<Band>, mode: Mode, a: Book, b: Book, proof: Option<set<Place>>,
                         external: set<Place>)
    requires AgreeOutside(a, b, RunSets(bands, mode, a, proof, external).keep)
    requires OutputValues(bands, a) == OutputValues(bands, b)
    requires forall i :: 0 <= i < |a| && a[i].place in SpansOf(bands, (x: Band) => Axis(x, mode)) ==>
      (Period(a[i]) <==> Period(b[i]))
    ensures RunSets(bands, mode, a, proof, external) == RunSets(bands, mode, b, proof, external)
    ensures var s := RunSets(bands, mode, a, proof, external); MaskAll(a, s.keep, s.deny) == MaskAll(b, s.keep, s.deny)
  {
    hide InputCells, SpansOf, Period, Pasted, OutputValues;
    var s := RunSets(bands, mode, a, proof, external);
    PeriodsAgree(a, b, SpansOf(bands, (x: Band) => Axis(x, mode)));
    PastedAgree(a, b, s.keep, if proof.Some? then proof.value else InputCells(bands), OutputValues(bands, a));
    MaskHidesTheRest(a, b, s.keep, s.deny);
  }

  // ---------- at one workbook ----------

  const HERE: Place := ("Inputs", 1, 1)

  /** One band of input cells over a workbook of one cell. */
  function OneBand(): (r: seq<Band>) { [Band("Inputs", 1, 1, 1, "input", "formula", "text")] }

  function OneCell(cell: Cell): (r: Book) { [CellAt(HERE, cell, "General")] }

  lemma OneCellSets(cell: Cell)
    ensures PlacesDistinct(OneCell(cell))
    ensures var s := RunSets(OneBand(), Inputs, OneCell(cell), None, {}); s.keep == {HERE} && s.deny == {}
  {
    var bands, book := OneBand(), OneCell(cell);
    assert Span(bands[0]) == {HERE};
    assert forall want: Band -> bool :: SpansOf(bands, want) == if want(bands[0]) then {HERE} else {};
  }

  lemma OneCellFails(cell: Cell, forbidden: seq<string>)
    requires !Harmless(CellAt(HERE, cell, "General"), Sets({HERE}, {HERE}, {}), forbidden)
    ensures var book := OneCell(cell);
      var s := RunSets(OneBand(), Inputs, book, None, {});
      !NoFaults(Check(MaskAll(book, s.keep, s.deny), book, s, FormulaPlaces(book), forbidden))
  {
    hide RunSets, Check, MaskAll, FormulaPlaces, NoFaults;
    var book := OneCell(cell);
    OneCellSets(cell);
    SetsAreConsistent(OneBand(), Inputs, book, None, {});
    MaskPassesIff(book, RunSets(OneBand(), Inputs, book, None, {}), forbidden);
    assert !Harmless(book[0], RunSets(OneBand(), Inputs, book, None, {}), forbidden);
  }

  /** A kept formula whose stored result starts with an equals sign fails the check. */
  lemma KeptResultFails()
    ensures var book := OneCell(Formula("B1", Result(Text("=x"))));
      var s := RunSets(OneBand(), Inputs, book, None, {});
      !NoFaults(Check(MaskAll(book, s.keep, s.deny), book, s, FormulaPlaces(book), []))
  {
    OneCellFails(Formula("B1", Result(Text("=x"))), []);
  }

  /** So does a typed note that holds the text of an answer's formula. */
  lemma NoteFails()
    ensures var book := OneCell(Typed(Marked(Some(Text("B1*B2")))));
      var s := RunSets(OneBand(), Inputs, book, None, {});
      !NoFaults(Check(MaskAll(book, s.keep, s.deny), book, s, FormulaPlaces(book), ["B1*B2"]))
  {
    assert Occurs("B1*B2", "B1*B2");
    OneCellFails(Typed(Marked(Some(Text("B1*B2")))), ["B1*B2"]);
  }

  /** A kept formula with a stored empty text reads as nothing, and as an empty text in the copy. */
  lemma EmptyTextShows()
    ensures var book := OneCell(Formula("B1", Result(Text(""))));
      Reads(book[0].cell) == None && Reads(MaskAll(book, {HERE}, {})[0].cell) == Some(Text(""))
  {
    MaskedGrid(OneCell(Formula("B1", Result(Text("")))), {HERE}, {}, 0);
  }
}
