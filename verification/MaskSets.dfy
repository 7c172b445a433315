/** The sets that decide what survives. */
module MaskSets {
  import opened Options
  import opened MaskModel

  datatype Mode = Inputs | Labels | Headers

  function SpansOf(bands: seq<Band>, want: Band -> bool): (r: set<Place>) {
    set i, p | 0 <= i < |bands| && want(bands[i]) && p in Span(bands[i]) :: p
  }

  function OutputCells(bands: seq<Band>): (r: set<Place>) { SpansOf(bands, (b: Band) => b.bucket == "output") }

  const DATE_TOKENS := ["yy", "mmm", "dd"]

  /** A cell that reads as a period: a date, a date format, or a whole number from 1990 to 2100. */
  predicate Period(c: CellAt) {
    var v := Reads(c.cell);
    || (v.Some? && v.value.Date?)
    || (exists t :: t in DATE_TOKENS && Occurs(t, c.format))
    || (v.Some? && v.value.Number? && v.value.n == v.value.n.Floor as real && 1990.0 <= v.value.n <= 2100.0)
  }

  function PeriodHeaders(book: Book, cells: set<Place>): (r: set<Place>) {
    set i | 0 <= i < |book| && book[i].place in cells && Period(book[i]) :: book[i].place
  }

  predicate KeptWhole(b: Band, mode: Mode) {
    b.kind != "literal" && (b.bucket == "input"
      || (mode != Inputs && b.kind != "formula" && b.vtype in {"text", "unit"}))
  }

  predicate KeptLiteral(b: Band) { b.kind == "literal" && b.bucket == "input" }

  predicate Axis(b: Band,
                 mode: Mode) { b.kind != "literal" && !KeptWhole(b, mode) && mode == Headers && b.vtype == "axis" }

  function KeepCells(bands: seq<Band>, mode: Mode, book: Book): (r: set<Place>) {
    SpansOf(bands, (b: Band) => KeptWhole(b, mode))
    + (SpansOf(bands, (b: Band) => KeptLiteral(b)) - OutputCells(bands))
    + PeriodHeaders(book, SpansOf(bands, (b: Band) => Axis(b, mode)))
  }

  function InputCells(bands: seq<Band>): (r: set<Place>) {
    SpansOf(bands, (b: Band) => b.bucket == "input") - OutputCells(bands)
  }

  lemma SpansStep(bands: seq<Band>, want: Band -> bool, i: nat)
    requires i < |bands|
    ensures SpansOf(bands[..i + 1], want) == SpansOf(bands[..i], want) + if want(bands[i]) then Span(bands[i]) else {}
  {
    hide Span;
    var before, after := bands[..i], bands[..i + 1];
    assert after == before + [bands[i]];
    forall p ensures p in SpansOf(after, want)
      <==> p in SpansOf(before, want) + if want(bands[i]) then Span(bands[i]) else {} {
      if p in SpansOf(before, want) {
        var j :| 0 <= j < |before| && want(before[j]) && p in Span(before[j]);
        assert after[j] == before[j];
      }
      if want(bands[i]) && p in Span(bands[i]) { assert after[i] == bands[i]; }
      if p in SpansOf(after, want) {
        var j :| 0 <= j < |after| && want(after[j]) && p in Span(after[j]);
        if j < i { assert before[j] == after[j]; }
      }
    }
  }

  method CollectSpans(bands: seq<Band>, want: Band -> bool) returns (cells: set<Place>)
    ensures cells == SpansOf(bands, want)
  {
    cells := {};
    var i := 0;
    while i < |bands|
      invariant 0 <= i <= |bands| && cells == SpansOf(bands[..i], want)
    {
      hide Span, SpansOf;
      SpansStep(bands, want, i);
      if want(bands[i]) { cells := cells + Span(bands[i]); }
      i := i + 1;
    }
    assert bands[..|bands|] == bands;
  }

  function KeptBy(bands: seq<Band>, whole: Band -> bool, literal: Band -> bool, outputs: set<Place>): (r: set<Place>) {
    SpansOf(bands, whole) + (SpansOf(bands, literal) - outputs)
  }

  lemma KeptStep(bands: seq<Band>, whole: Band -> bool, literal: Band -> bool, outputs: set<Place>, i: nat)
    requires i < |bands|
    ensures KeptBy(bands[..i + 1], whole, literal, outputs)
      == KeptBy(bands[..i], whole, literal, outputs)
         + ((if whole(bands[i]) then Span(bands[i]) else {})
           + (if literal(bands[i]) then Span(bands[i]) - outputs else {}))
  {
    hide Span, SpansOf;
    SpansStep(bands, whole, i);
    SpansStep(bands, literal, i);
  }

  /** What one band adds to the kept cells and to the axis cells. */
  method Admit(b: Band, mode: Mode, outputs: set<Place>) returns (kept: set<Place>, head: set<Place>)
    ensures kept == (if KeptWhole(b, mode) then Span(b) else {}) + (if KeptLiteral(b) then Span(b) - outputs else {})
    ensures head == if Axis(b, mode) then Span(b) else {}
  {
    hide Span;
    kept, head := {}, {};
    if b.kind == "literal" {
      if b.bucket == "input" { kept := Span(b) - outputs; }
    } else if b.bucket == "input" {
      kept := Span(b);
    } else if mode != Inputs && b.kind != "formula" && b.vtype in {"text", "unit"} {
      kept := Span(b);
    } else if mode == Headers && b.vtype == "axis" {
      head := Span(b);
    }
  }

  /** The bands in one pass; period headers are sorted out of the axis cells at the end. */
  method CollectKeep(bands: seq<Band>, mode: Mode, book: Book) returns (keep: set<Place>)
    ensures keep == KeepCells(bands, mode, book)
  {
    var outputs := CollectSpans(bands, (b: Band) => b.bucket == "output");
    var whole, literal, axis := (b: Band) => KeptWhole(b, mode), (b: Band) => KeptLiteral(b),
      (b: Band) => Axis(b, mode);
    keep := {};
    var headers := {};
    var i := 0;
    while i < |bands|
      invariant 0 <= i <= |bands|
      invariant keep == KeptBy(bands[..i], whole, literal, outputs)
      invariant headers == SpansOf(bands[..i], axis)
    {
      hide Span, SpansOf, KeptWhole, KeptLiteral, Axis, KeptBy;
      KeptStep(bands, whole, literal, outputs, i);
      SpansStep(bands, axis, i);
      var kept, head := Admit(bands[i], mode, outputs);
      keep, headers := keep + kept, headers + head;
      i := i + 1;
    }
    assert bands[..|bands|] == bands;
    keep := keep + PeriodHeaders(book, headers);
  }

  method CollectInputs(bands: seq<Band>) returns (frontier: set<Place>)
    ensures frontier == InputCells(bands)
  {
    var outputs := CollectSpans(bands, (b: Band) => b.bucket == "output");
    var inputs := CollectSpans(bands, (b: Band) => b.bucket == "input");
    frontier := inputs - outputs;
  }

  // ---------- pasted answers ----------

  function Abs(x: real): (r: real) { if x < 0.0 then -x else x }

  /** Small whole numbers collide by accident. */
  predicate Trivial(x: real) { x == x.Floor as real && Abs(x) < 10000.0 }

  predicate Matches(v: real, t: real) { Abs(v - t) <= 0.000000000001 * (if Abs(t) > 1.0 then Abs(t) else 1.0) }

  /** The numbers the output cells show. */
  function OutputValues(bands: seq<Band>, book: Book): (r: set<real>) {
    set i | 0 <= i < |book| && book[i].place in OutputCells(bands) && Reads(book[i].cell).Some?
      && Reads(book[i].cell).value.Number?
      :: Reads(book[i].cell).value.n
  }

  predicate Pasted(c: CellAt, frontier: set<Place>, outputs: set<real>) {
    && c.cell.Typed? && c.place !in frontier
    && Reads(c.cell).Some? && Reads(c.cell).value.Number? && !Trivial(Reads(c.cell).value.n)
    && exists t :: t in outputs && !Trivial(t) && Matches(Reads(c.cell).value.n, t)
  }

  function PastedAnswers(book: Book, frontier: set<Place>, outputs: set<real>): (r: set<Place>) {
    set i | 0 <= i < |book| && Pasted(book[i], frontier, outputs) :: book[i].place
  }

  lemma FormulaHere(book: Book, i: nat)
    requires PlacesDistinct(book) && i < |book|
    ensures book[i].place in FormulaPlaces(book) <==> book[i].cell.Formula?
  {
    if book[i].place in FormulaPlaces(book) {
      var j :| 0 <= j < |book| && book[j].cell.Formula? && book[j].place == book[i].place;
      assert j == i;
    }
  }

  method FindPasted(book: Book, formulas: set<Place>, frontier: set<Place>, outputs: set<real>)
    returns (deny: set<Place>)
    requires PlacesDistinct(book) && formulas == FormulaPlaces(book)
    ensures deny == PastedAnswers(book, frontier, outputs)
  {
    deny := {};
    var interesting := set t | t in outputs && !Trivial(t);
    var i := 0;
    while i < |book|
      invariant 0 <= i <= |book|
      invariant forall p ::
        p in deny <==> exists j :: 0 <= j < i && p == book[j].place && Pasted(book[j], frontier, outputs)
    {
      hide Trivial, Matches;
      var c := book[i];
      FormulaHere(book, i);
      if c.place !in formulas && c.place !in frontier {
        var v := Reads(c.cell);
        if v.Some? && v.value.Number? && !Trivial(v.value.n) && exists t :: t in interesting && Matches(v.value.n, t) {
          deny := deny + {c.place};
        }
      }
      i := i + 1;
    }
  }

  // ---------- the set algebra of a run ----------

  datatype Sets = Sets(keep: set<Place>, frontier: set<Place>, deny: set<Place>)

  /** The proof's inputs, when there are any, take the place of the declared frontier; cells served
      from outside leave every set but the denied one. */
  function RunSets(bands: seq<Band>, mode: Mode, book: Book, proof: Option<set<Place>>,
                   external: set<Place>): (r: Sets) {
    var declared := InputCells(bands);
    var frontier := if proof.Some? then proof.value else declared;
    var keep := if proof.Some? then KeepCells(bands, mode, book) - declared + proof.value
      else KeepCells(bands, mode, book);
    var pasted := PastedAnswers(book, frontier, OutputValues(bands, book));
    Sets(keep - external, frontier - external, pasted + external)
  }

  method ComputeSets(bands: seq<Band>, mode: Mode, book: Book, proof: Option<set<Place>>, external: set<Place>)
    returns (r: Sets)
    requires PlacesDistinct(book)
    ensures r == RunSets(bands, mode, book, proof, external)
  {
    hide KeepCells, InputCells, PastedAnswers, OutputValues;
    var keep := CollectKeep(bands, mode, book);
    var frontier := CollectInputs(bands);
    if proof.Some? {
      keep := keep - frontier;
      keep := keep + proof.value;
      frontier := proof.value;
    }
    var deny := FindPasted(book, FormulaPlaces(book), frontier, OutputValues(bands, book));
    deny := deny + external;
    keep := keep - external;
    frontier := frontier - external;
    r := Sets(keep, frontier, deny);
  }

  lemma DeclaredAreKept(bands: seq<Band>, mode: Mode, book: Book)
    ensures InputCells(bands) <= KeepCells(bands, mode, book)
  {
    hide Span, PeriodHeaders;
    forall p | p in InputCells(bands) ensures p in KeepCells(bands, mode, book) {
      var i :| 0 <= i < |bands| && bands[i].bucket == "input" && p in Span(bands[i]);
      if bands[i].kind == "literal" {
        assert KeptLiteral(bands[i]);
        assert p in SpansOf(bands, (b: Band) => KeptLiteral(b));
      } else {
        assert KeptWhole(bands[i], mode);
        assert p in SpansOf(bands, (b: Band) => KeptWhole(b, mode));
      }
    }
  }

  lemma PastedAreTyped(book: Book, frontier: set<Place>, outputs: set<real>)
    requires PlacesDistinct(book)
    ensures PastedAnswers(book, frontier, outputs) !! frontier
    ensures PastedAnswers(book, frontier, outputs) !! FormulaPlaces(book)
  {
    forall p | p in PastedAnswers(book, frontier, outputs) ensures p !in frontier && p !in FormulaPlaces(book) {
      var i :| 0 <= i < |book| && Pasted(book[i], frontier, outputs) && book[i].place == p;
      FormulaHere(book, i);
    }
  }

  /** Whatever the bands, the proof and the external cells: the frontier is kept, nothing of it is
      denied, and no formula is both kept and denied. */
  lemma SetsAreConsistent(bands: seq<Band>, mode: Mode, book: Book, proof: Option<set<Place>>, external: set<Place>)
    requires PlacesDistinct(book)
    ensures var s := RunSets(bands, mode, book, proof, external);
      s.frontier <= s.keep && s.frontier !! s.deny && s.keep * s.deny !! FormulaPlaces(book)
  {
    hide KeepCells, InputCells, PastedAnswers, OutputValues, FormulaPlaces;
    DeclaredAreKept(bands, mode, book);
    PastedAreTyped(book, if proof.Some? then proof.value else InputCells(bands), OutputValues(bands, book));
  }
}
