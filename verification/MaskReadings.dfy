/** The mask in plain terms: which cells a band covers, what a cell shows, and from these alone what
    is denied, kept and in the frontier, what is counted, and what counts as a fault. */
module MaskReadings {
  import opened Options
  import opened MaskModel
  import opened MaskSets
  import opened MaskRewrite
  import opened MaskCheck

  /** Some band of this role covers the cell. */
  predicate Covered(bands: seq<Band>, bucket: string, p: Place) {
    exists i :: 0 <= i < |bands| && bands[i].bucket == bucket
      && bands[i].sheet == p.0 && bands[i].row == p.1 && bands[i].colLo <= p.2 <= bands[i].colHi
  }

  /** The value is typed in the cell. */
  predicate Types(c: CellAt, v: Value) { c.cell == Typed(Marked(Some(v))) }

  /** The value is typed in the cell or is the stored result of its formula; an empty text stored by a
      formula is not shown. */
  predicate Shows(c: CellAt, v: Value) {
    Types(c, v) || (c.cell.Formula? && c.cell.cached == Result(v) && v != Text(""))
  }

  lemma ReadsIs(c: CellAt, v: Value)
    ensures Reads(c.cell) == Some(v) <==> Shows(c, v)
  {
  }

  lemma ReadsSome(c: CellAt)
    ensures Reads(c.cell).Some? <==> exists v :: Shows(c, v)
  {
    if Reads(c.cell).Some? { ReadsIs(c, Reads(c.cell).value); }
    if v :| Shows(c, v) { ReadsIs(c, v); }
  }

  lemma SpansAre(bands: seq<Band>, bucket: string, p: Place)
    ensures p in SpansOf(bands, (b: Band) => b.bucket == bucket) <==> Covered(bands, bucket, p)
  {
    var want := (b: Band) => b.bucket == bucket;
    if p in SpansOf(bands, want) {
      var i :| 0 <= i < |bands| && want(bands[i]) && p in Span(bands[i]);
    }
    if Covered(bands, bucket, p) {
      var i :| 0 <= i < |bands| && bands[i].bucket == bucket
        && bands[i].sheet == p.0 && bands[i].row == p.1 && bands[i].colLo <= p.2 <= bands[i].colHi;
      assert want(bands[i]) && p in Span(bands[i]);
    }
  }

  lemma DeclaredIs(bands: seq<Band>, p: Place)
    ensures p in InputCells(bands) <==> Covered(bands, "input", p) && !Covered(bands, "output", p)
  {
    SpansAre(bands, "input", p);
    SpansAre(bands, "output", p);
    hide SpansOf, Covered;
    assert InputCells(bands)
      == SpansOf(bands, (b: Band) => b.bucket == "input") - SpansOf(bands, (b: Band) => b.bucket == "output");
  }

  // ---------- what is denied ----------

  /** A whole number less than 10000 in size. */
  predicate SmallWhole(x: real) { x == x.Floor as real && -10000.0 < x < 10000.0 }

  /** v lies within a trillionth of t, of t itself or of 1 where t is smaller. */
  predicate Near(v: real, t: real) {
    var width := if t > 1.0 then t else if t < -1.0 then -t else 1.0;
    -width <= 1000000000000.0 * (v - t) <= width
  }

  lemma NearIs(v: real, t: real)
    ensures Matches(v, t) <==> Near(v, t)
  {
    var width := if t > 1.0 then t else if t < -1.0 then -t else 1.0;
    assert width == if Abs(t) > 1.0 then Abs(t) else 1.0;
    assert 1000000000000.0 * (0.000000000001 * width) == width;
  }

  lemma TrivialIs(x: real)
    ensures Trivial(x) <==> SmallWhole(x)
  {
  }

  lemma OutputsAre(bands: seq<Band>, book: Book, t: real)
    ensures t in OutputValues(bands, book) <==>
      exists j :: 0 <= j < |book| && Shows(book[j], Number(t)) && Covered(bands, "output", book[j].place)
  {
    hide Covered, Shows;
    if t in OutputValues(bands, book) {
      var j :| 0 <= j < |book| && book[j].place in OutputCells(bands) && Reads(book[j].cell) == Some(Number(t));
      ReadsIs(book[j], Number(t));
      SpansAre(bands, "output", book[j].place);
    }
    if j :| 0 <= j < |book| && Shows(book[j], Number(t)) && Covered(bands, "output", book[j].place) {
      ReadsIs(book[j], Number(t));
      SpansAre(bands, "output", book[j].place);
    }
  }

  /** A typed number v that may be one of the answers t. */
  ghost predicate Copies(bands: seq<Band>, book: Book, i: nat, v: real, t: real)
    requires i < |book|
  {
    && Types(book[i], Number(v)) && !SmallWhole(v) && !SmallWhole(t) && Near(v, t)
    && exists j :: 0 <= j < |book| && Shows(book[j], Number(t)) && Covered(bands, "output", book[j].place)
  }

  lemma PastedIs(bands: seq<Band>, book: Book, frontier: set<Place>, i: nat)
    requires i < |book|
    ensures Pasted(book[i], frontier, OutputValues(bands, book))
      <==> book[i].place !in frontier && exists v, t :: Copies(bands, book, i, v, t)
  {
    hide OutputValues, Covered, Near, Matches, Trivial, SmallWhole;
    var c, outputs := book[i], OutputValues(bands, book);
    if Pasted(c, frontier, outputs) {
      var v := Reads(c.cell).value.n;
      var t :| t in outputs && !Trivial(t) && Matches(v, t);
      OutputsAre(bands, book, t);
      NearIs(v, t);
      TrivialIs(v);
      TrivialIs(t);
      assert Copies(bands, book, i, v, t);
    }
    if v, t :| c.place !in frontier && Copies(bands, book, i, v, t) {
      OutputsAre(bands, book, t);
      NearIs(v, t);
      TrivialIs(v);
      TrivialIs(t);
    }
  }

  /** A cell is denied exactly when it is served from outside or it is typed, lies outside the frontier
      of the run, and holds a number that an output cell shows too, to a trillionth. Whole numbers
      less than 10000 in size are never taken for answers. */
  lemma DeniedAre(bands: seq<Band>, mode: Mode, book: Book, proof: Option<set<Place>>, external: set<Place>, p: Place)
    ensures p in RunSets(bands, mode, book, proof, external).deny <==>
      || p in external
      || ((if proof.Some? then p !in proof.value else !(Covered(bands, "input", p) && !Covered(bands, "output", p)))
        && exists i, v, t :: 0 <= i < |book| && book[i].place == p && Copies(bands, book, i, v, t))
  {
    hide Covered, Copies, InputCells, KeepCells, OutputValues, Pasted;
    DeclaredIs(bands, p);
    var frontier, outputs := if proof.Some? then proof.value else InputCells(bands), OutputValues(bands, book);
    if p in PastedAnswers(book, frontier, outputs) {
      var i :| 0 <= i < |book| && Pasted(book[i], frontier, outputs) && book[i].place == p;
      PastedIs(bands, book, frontier, i);
    }
    if p !in frontier && exists i, v, t :: 0 <= i < |book| && book[i].place == p && Copies(bands, book, i, v, t) {
      var i, v, t :| 0 <= i < |book| && book[i].place == p && Copies(bands, book, i, v, t);
      PastedIs(bands, book, frontier, i);
      assert book[i].place in PastedAnswers(book, frontier, outputs);
    }
  }

  lemma NearItself(v: real)
    ensures Near(v, v)
  {
  }

  /** A typed copy of an answer outside the frontier is gone from the masked copy: the cell is bare. */
  lemma PastedIsGone(bands: seq<Band>, mode: Mode, book: Book, proof: Option<set<Place>>, external: set<Place>,
                     i: nat, j: nat, v: real)
    requires i < |book| && j < |book| && book[i].cell == Typed(Marked(Some(Number(v))))
    requires book[j].cell == Typed(Marked(Some(Number(v))))
      || (book[j].cell.Formula? && book[j].cell.cached == Result(Number(v)))
    requires Covered(bands, "output", book[j].place) && !(v == v.Floor as real && -10000.0 < v < 10000.0)
    requires if proof.Some? then book[i].place !in proof.value
      else !Covered(bands, "input", book[i].place) || Covered(bands, "output", book[i].place)
    ensures var s := RunSets(bands, mode, book, proof, external);
      book[i].place in s.deny && MaskAll(book, s.keep, s.deny)[i].cell == Typed(Bare)
  {
    hide RunSets, Covered, Near;
    NearItself(v);
    assert Copies(bands, book, i, v, v);
    DeniedAre(bands, mode, book, proof, external, book[i].place);
    var s := RunSets(bands, mode, book, proof, external);
    assert MaskAll(book, s.keep, s.deny)[i] == book[i].(cell := Mask(book[i], s.keep, s.deny).0);
  }

  // ---------- what is kept ----------

  predicate Covers(b: Band, p: Place) { b.sheet == p.0 && b.row == p.1 && b.colLo <= p.2 <= b.colHi }

  lemma SpansHave(bands: seq<Band>, want: Band -> bool, p: Place)
    ensures p in SpansOf(bands, want) <==> exists b :: b in bands && want(b) && Covers(b, p)
  {
    if p in SpansOf(bands, want) {
      var i :| 0 <= i < |bands| && want(bands[i]) && p in Span(bands[i]);
      assert bands[i] in bands;
    }
    if b :| b in bands && want(b) && Covers(b, p) {
      var i :| 0 <= i < |bands| && bands[i] == b;
      assert p in Span(bands[i]);
    }
  }

  /** The text t stands at place k of s. */
  predicate Stands(t: string, s: string, k: nat) { k + |t| <= |s| && s[k..k + |t|] == t }

  /** The cell shows a date or a whole number from 1990 to 2100, or has a date format. */
  ghost predicate LooksLikePeriod(c: CellAt) {
    || (exists d :: Shows(c, Date(d)))
    || (exists n :: Shows(c, Number(n)) && n == n.Floor as real && 1990.0 <= n <= 2100.0)
    || (exists k :: 0 <= k && (Stands("yy", c.format, k) || Stands("mmm", c.format, k) || Stands("dd", c.format, k)))
  }

  lemma {:induction false} OccursAt(t: string, s: string)
    ensures Occurs(t, s) <==> exists k: nat :: Stands(t, s, k)
    decreases |s|
  {
    if |t| <= |s| && s[..|t|] == t {
      assert Stands(t, s, 0);
    } else if s != "" {
      OccursAt(t, s[1..]);
      if k: nat :| Stands(t, s[1..], k) { assert s[1..][k..k + |t|] == s[k + 1..k + 1 + |t|] && Stands(t, s, k + 1); }
      if k: nat :| Stands(t, s, k) {
        assert k > 0 && s[1..][k - 1..k - 1 + |t|] == s[k..k + |t|];
        assert Stands(t, s[1..], k - 1);
      }
    }
  }

  lemma PeriodIs(c: CellAt)
    ensures Period(c) <==> LooksLikePeriod(c)
  {
    hide Occurs, Stands, Shows;
    assert DATE_TOKENS == ["yy", "mmm", "dd"];
    OccursAt("yy", c.format);
    OccursAt("mmm", c.format);
    OccursAt("dd", c.format);
    var v := Reads(c.cell);
    if v.Some? { ReadsIs(c, v.value); }
    if d :| Shows(c, Date(d)) { ReadsIs(c, Date(d)); }
    if n :| Shows(c, Number(n)) && n == n.Floor as real && 1990.0 <= n <= 2100.0 { ReadsIs(c, Number(n)); }
  }

  lemma HeadersAre(book: Book, cells: set<Place>, p: Place)
    ensures p in PeriodHeaders(book, cells)
      <==> p in cells && exists k :: 0 <= k < |book| && book[k].place == p && LooksLikePeriod(book[k])
  {
    hide LooksLikePeriod, Period;
    if p in PeriodHeaders(book, cells) {
      var k :| 0 <= k < |book| && book[k].place in cells && Period(book[k]) && book[k].place == p;
      PeriodIs(book[k]);
    }
    if k :| p in cells && 0 <= k < |book| && book[k].place == p && LooksLikePeriod(book[k]) {
      PeriodIs(book[k]);
    }
  }

  /** A cell is kept exactly when an input band covers it that is not a constant's, or a constant's
      input band and no output band does; with labels kept, also when a band of texts or units does
      that holds no formulas; and with headers kept, also when an axis band does and it reads as a
      period. The last two leave out constants' bands. */
  lemma KeptAre(bands: seq<Band>, mode: Mode, book: Book, p: Place)
    ensures p in KeepCells(bands, mode, book) <==>
      || (exists b :: b in bands && Covers(b, p) && b.bucket == "input" && b.kind != "literal")
      || (!Covered(bands, "output", p) && exists b ::
          b in bands && Covers(b, p) && b.bucket == "input" && b.kind == "literal")
      || (mode != Inputs && exists b ::
          b in bands && Covers(b, p) && b.kind !in {"literal", "formula"} && b.vtype in {"text", "unit"})
      || (mode == Headers
          && (exists b :: b in bands && Covers(b, p) && b.kind != "literal" && b.vtype == "axis")
          && exists k :: 0 <= k < |book| && book[k].place == p && LooksLikePeriod(book[k]))
  {
    hide Covers, Covered, LooksLikePeriod, PeriodHeaders, SpansOf;
    var axis := SpansOf(bands, (b: Band) => Axis(b, mode));
    SpansHave(bands, (b: Band) => KeptWhole(b, mode), p);
    SpansHave(bands, (b: Band) => KeptLiteral(b), p);
    SpansHave(bands, (b: Band) => Axis(b, mode), p);
    SpansAre(bands, "output", p);
    HeadersAre(book, axis, p);
    assert KeepCells(bands, mode, book) == SpansOf(bands, (b: Band) => KeptWhole(b, mode))
      + (SpansOf(bands, (b: Band) => KeptLiteral(b)) - SpansOf(bands, (b: Band) => b.bucket == "output"))
      + PeriodHeaders(book, axis);
  }

  /** The frontier of a run is the proof's inputs, or without a proof the cells that input bands cover
      and output bands do not; a proof's inputs are kept in place of those. Cells served from outside
      are in neither. */
  lemma FrontierAre(bands: seq<Band>, mode: Mode, book: Book, proof: Option<set<Place>>, external: set<Place>, p: Place)
    ensures var s, declared := RunSets(bands, mode, book, proof, external),
        Covered(bands, "input", p) && !Covered(bands, "output", p);
      && (p in s.frontier <==> p !in external && if proof.Some? then p in proof.value else declared)
      && (p in s.keep <==>
        p !in external && if proof.Some? then p in proof.value || (p in KeepCells(bands, mode, book) && !declared)
                          else p in KeepCells(bands, mode, book))
  {
    hide Covered, KeepCells, InputCells, PastedAnswers, OutputValues;
    DeclaredIs(bands, p);
  }

  // ---------- what is counted ----------

  /** A typed cell that holds something counts as redacted if it is denied and as kept if not; a
      formula as blanked unless it is kept, and then by its stored result: none as uncalculated, white
      space as blanked, a value as frozen. */
  lemma CellIsCounted(c: CellAt, keep: set<Place>, deny: set<Place>)
    ensures Mask(c, keep, deny).1 ==
      if c.cell.Typed? then
        if c.cell.content.Bare? then Unmarked else if c.place in deny then Redacted else Kept
      else if c.place !in keep || c.cell.cached == Spaces then Blanked
      else if c.cell.cached == Uncached then Uncalculated
      else Frozen
  {
  }

  /** The cells that get this mark. */
  function CountedAs(book: Book, keep: set<Place>, deny: set<Place>, m: Mark): (r: set<nat>) {
    set i: nat | i < |book| && Mask(book[i], keep, deny).1 == m
  }

  lemma NoneCounted(keep: set<Place>, deny: set<Place>, m: Mark)
    ensures |CountedAs([], keep, deny, m)| == 0
  {
    hide Mask;
    assert CountedAs([], keep, deny, m) == {};
  }

  lemma OneMoreCounted(front: Book, last: CellAt, keep: set<Place>, deny: set<Place>, m: Mark)
    ensures |CountedAs(front + [last], keep, deny, m)|
      == |CountedAs(front, keep, deny, m)| + if Mask(last, keep, deny).1 == m then 1 else 0
  {
    hide Mask;
    var book := front + [last];
    var before := CountedAs(front, keep, deny, m);
    var more: set<nat> := if Mask(last, keep, deny).1 == m then {|front|} else {};
    forall i: nat ensures i in CountedAs(book, keep, deny, m) <==> i in before || i in more {
      if i < |front| { assert book[i] == front[i]; }
    }
    assert CountedAs(book, keep, deny, m) == before + more;
  }

  /** Each total is the number of cells so counted. */
  lemma {:induction false} TotalsAre(book: Book, keep: set<Place>, deny: set<Place>)
    ensures Count(book, keep, deny) == Totals(
      |CountedAs(book, keep, deny, Kept)|, |CountedAs(book, keep, deny, Redacted)|,
      |CountedAs(book, keep, deny, Blanked)|, |CountedAs(book, keep, deny, Uncalculated)|,
      |CountedAs(book, keep, deny, Frozen)|)
  {
    hide Mask, CountedAs;
    if book == [] {
      forall m: Mark { NoneCounted(keep, deny, m); }
    } else {
      var front, last := book[..|book| - 1], book[|book| - 1];
      assert book == front + [last];
      TotalsAre(front, keep, deny);
      forall m: Mark { OneMoreCounted(front, last, keep, deny, m); }
    }
  }

  // ---------- what is a fault ----------

  lemma ForbiddenIs(t: string, forbidden: seq<string>)
    ensures Forbidden(t, forbidden) <==> exists f, k: nat :: f in forbidden && Stands(f, t, k)
  {
    hide Occurs, Stands;
    forall f { OccursAt(f, t); }
  }

  lemma FormulaFaultIs(c: CellAt, derived: set<Place>, forbidden: seq<string>)
    ensures FormulaFault(c, derived, forbidden) <==> c.cell.Formula? || exists t ::
      Shows(c, Text(t)) && ((t != "" && t[0] == '=' && c.place in derived)
        || exists f, k: nat :: f in forbidden && Stands(f, t, k))
  {
    hide Forbidden, Shows, Stands;
    if Reads(c.cell).Some? {
      ReadsIs(c, Reads(c.cell).value);
      if Reads(c.cell).value.Text? { ForbiddenIs(Reads(c.cell).value.s, forbidden); }
    }
    forall t | Shows(c, Text(t)) ensures Reads(c.cell) == Some(Text(t)) { ReadsIs(c, Text(t)); }
  }

  lemma LeakFaultIs(c: CellAt, s: Sets, derived: set<Place>)
    ensures LeakFault(c, s, derived) <==> exists v ::
      Shows(c, v) && (c.place in s.deny || (!v.Text? && c.place in derived && c.place !in s.keep))
  {
    hide Shows;
    if Reads(c.cell).Some? { ReadsIs(c, Reads(c.cell).value); }
    forall v | Shows(c, v) ensures Reads(c.cell) == Some(v) { ReadsIs(c, v); }
  }

  /** A cell is a formula fault exactly when it is a formula or shows a text that begins with an equals
      sign in a formula's place or contains an answer's formula. */
  lemma {:induction false} FormulaFaultsAre(masked: Book, derived: set<Place>, forbidden: seq<string>, p: Place)
    ensures p in FormulaFaults(masked, derived, forbidden) <==> exists c ::
      c in masked && c.place == p && (c.cell.Formula? || exists t ::
        Shows(c, Text(t)) && ((t != "" && t[0] == '=' && p in derived)
          || exists f, k: nat :: f in forbidden && Stands(f, t, k)))
  {
    if masked != [] {
      hide FormulaFault, Shows, Stands;
      var front, last := masked[..|masked| - 1], masked[|masked| - 1];
      assert masked == front + [last];
      FormulaFaultsAre(front, derived, forbidden, p);
      FormulaFaultIs(last, derived, forbidden);
    }
  }

  /** A cell leaks exactly when it shows anything in a denied place, or anything but a text in a
      formula's place that is not kept. */
  lemma {:induction false} LeakFaultsAre(masked: Book, s: Sets, derived: set<Place>, p: Place)
    ensures p in LeakFaults(masked, s, derived) <==> exists c, v ::
      c in masked && c.place == p && Shows(c, v) && (p in s.deny || (!v.Text? && p in derived && p !in s.keep))
  {
    if masked != [] {
      hide LeakFault, Shows;
      var front, last := masked[..|masked| - 1], masked[|masked| - 1];
      assert masked == front + [last];
      LeakFaultsAre(front, s, derived, p);
      LeakFaultIs(last, s, derived);
    }
  }

  /** A typed cell or one of the frontier, not denied, that shows v. */
  predicate MustShow(c: CellAt, s: Sets, derived: set<Place>, v: Value) {
    Shows(c, v) && c.place !in s.deny && (c.place !in derived || c.place in s.frontier)
  }

  /** Two numbers to a billionth, or two equal values. */
  predicate Same(v: Value, w: Value) {
    if v.Number? && w.Number? then
      var width := if v.n > 1.0 then v.n else if v.n < -1.0 then -v.n else 1.0;
      -width <= 1000000000.0 * (v.n - w.n) <= width
    else v == w
  }

  lemma SameIs(v: Value, w: Value)
    ensures SameValue(v, w) <==> Same(v, w)
  {
    if v.Number? && w.Number? {
      var width := if v.n > 1.0 then v.n else if v.n < -1.0 then -v.n else 1.0;
      assert width == if Abs(v.n) > 1.0 then Abs(v.n) else 1.0;
      assert 1000000000.0 * (0.000000001 * width) == width;
    }
  }

  lemma MustHoldIs(c: CellAt, s: Sets, derived: set<Place>)
    ensures MustHold(c, s, derived) <==> exists v :: MustShow(c, s, derived, v)
    ensures forall v :: MustShow(c, s, derived, v) ==> Reads(c.cell) == Some(v)
  {
    hide Shows;
    if Reads(c.cell).Some? {
      ReadsIs(c, Reads(c.cell).value);
      if MustHold(c, s, derived) { assert MustShow(c, s, derived, Reads(c.cell).value); }
    }
    forall v | MustShow(c, s, derived, v) ensures Reads(c.cell) == Some(v) { ReadsIs(c, v); }
  }

  lemma {:induction false} FoundSomewhere(masked: Book, p: Place)
    ensures Lookup(masked, p).Some? ==>
      exists i :: 0 <= i < |masked| && masked[i].place == p && Lookup(masked, p) == Reads(masked[i].cell)
  {
    if masked != [] && masked[0].place != p {
      FoundSomewhere(masked[1..], p);
      if Lookup(masked[1..], p).Some? {
        var rest := masked[1..];
        var i :| 0 <= i < |rest| && rest[i].place == p && Lookup(rest, p) == Reads(rest[i].cell);
        assert masked[i + 1] == rest[i];
      }
    }
  }

  lemma LookupIs(masked: Book, p: Place, w: Value)
    requires PlacesDistinct(masked)
    ensures Lookup(masked, p) == Some(w) <==> exists d :: d in masked && d.place == p && Shows(d, w)
    ensures Lookup(masked, p).Some? ==> exists d :: d in masked && d.place == p && Shows(d, Lookup(masked, p).value)
  {
    hide Shows;
    FoundSomewhere(masked, p);
    if Lookup(masked, p).Some? {
      var i :| 0 <= i < |masked| && masked[i].place == p && Lookup(masked, p) == Reads(masked[i].cell);
      ReadsIs(masked[i], Lookup(masked, p).value);
    }
    if d :| d in masked && d.place == p && Shows(d, w) {
      var i :| 0 <= i < |masked| && masked[i] == d;
      LookupAt(masked, i);
      ReadsIs(d, w);
    }
  }

  lemma LookupNone(masked: Book, p: Place)
    requires PlacesDistinct(masked)
    ensures Lookup(masked, p).None? <==> !exists d, w :: d in masked && d.place == p && Shows(d, w)
  {
    hide Shows, Lookup, PlacesDistinct;
    if Lookup(masked, p).Some? { LookupIs(masked, p, Lookup(masked, p).value); }
    if d, w :| d in masked && d.place == p && Shows(d, w) { LookupIs(masked, p, w); }
  }

  /** A cell is lost exactly when it must show something and nothing in its place does. */
  lemma {:induction false} LostFaultsAre(masked: Book, original: Book, s: Sets, derived: set<Place>, p: Place)
    requires PlacesDistinct(masked)
    ensures p in LostFaults(masked, original, s, derived) <==>
      && (exists c, v :: c in original && c.place == p && MustShow(c, s, derived, v))
      && !exists d, w :: d in masked && d.place == p && Shows(d, w)
  {
    if original != [] {
      hide MustHold, MustShow, Shows, Lookup, PlacesDistinct;
      var front, last := original[..|original| - 1], original[|original| - 1];
      assert original == front + [last];
      LostFaultsAre(masked, front, s, derived, p);
      MustHoldIs(last, s, derived);
      LookupNone(masked, p);
    }
  }

  /** A cell is changed exactly when it must show something and another value stands in its place. */
  lemma {:induction false} ChangedFaultsAre(masked: Book, original: Book, s: Sets, derived: set<Place>, p: Place)
    requires PlacesDistinct(masked)
    ensures p in ChangedFaults(masked, original, s, derived) <==>
      exists c, v, d, w :: c in original && c.place == p && MustShow(c, s, derived, v)
        && d in masked && d.place == p && Shows(d, w) && !Same(v, w)
  {
    if original != [] {
      hide MustHold, MustShow, Shows, Lookup, PlacesDistinct, SameValue, Same, Reads;
      var front, last := original[..|original| - 1], original[|original| - 1];
      assert original == front + [last];
      ChangedFaultsAre(masked, front, s, derived, p);
      MustHoldIs(last, s, derived);
      forall w { LookupIs(masked, p, w); }
      forall v, w { SameIs(v, w); }
    }
  }
}
