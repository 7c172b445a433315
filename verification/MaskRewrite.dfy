/** The rewriting of the cells. */
module MaskRewrite {
  import opened Options
  import opened MaskModel

  datatype Mark = Unmarked | Kept | Redacted | Blanked | Uncalculated | Frozen

  const EMPTY := Typed(Bare)

  function Mask(c: CellAt, keep: set<Place>, deny: set<Place>): (r: (Cell, Mark)) {
    match c.cell
    case Typed(Bare) => (c.cell, Unmarked)
    case Typed(Marked(_)) => if c.place in deny then (EMPTY, Redacted) else (c.cell, Kept)
    case Formula(_, cached) =>
      if c.place !in keep then (EMPTY, Blanked)
      else
        match cached
        case Uncached => (EMPTY, Uncalculated)
        case Spaces => (EMPTY, Blanked)
        case Result(v) => (Typed(Marked(Some(v))), Frozen)
  }

  function MaskAll(book: Book, keep: set<Place>, deny: set<Place>): (s: Book)
    ensures |s| == |book|
  {
    seq(|book|, i requires 0 <= i < |book| => book[i].(cell := Mask(book[i], keep, deny).0))
  }

  datatype Totals = Totals(kept: nat, redacted: nat, blanked: nat, uncalculated: nat, frozen: nat)

  function Add(t: Totals, m: Mark): (r: Totals) {
    match m
    case Unmarked => t
    case Kept => t.(kept := t.kept + 1)
    case Redacted => t.(redacted := t.redacted + 1)
    case Blanked => t.(blanked := t.blanked + 1)
    case Uncalculated => t.(uncalculated := t.uncalculated + 1)
    case Frozen => t.(frozen := t.frozen + 1)
  }

  function Count(book: Book, keep: set<Place>, deny: set<Place>): (r: Totals) {
    if book == [] then Totals(0, 0, 0, 0, 0)
    else Add(Count(book[..|book| - 1], keep, deny), Mask(book[|book| - 1], keep, deny).1)
  }

  class Tally {
    var totals: Totals

    constructor ()
      ensures totals == Totals(0, 0, 0, 0, 0)
    {
      totals := Totals(0, 0, 0, 0, 0);
    }

    method Bump(m: Mark)
      modifies this
      ensures totals == Add(old(totals), m)
    {
      totals := Add(totals, m);
    }
  }

  method MaskSheet(book: Book, keep: set<Place>, deny: set<Place>, tally: Tally) returns (out: Book)
    requires tally.totals == Totals(0, 0, 0, 0, 0)
    modifies tally
    ensures out == MaskAll(book, keep, deny) && tally.totals == Count(book, keep, deny)
  {
    out := [];
    var i := 0;
    while i < |book|
      invariant 0 <= i <= |book|
      invariant out == MaskAll(book[..i], keep, deny) && tally.totals == Count(book[..i], keep, deny)
    {
      hide Mask, Add;
      assert book[..i + 1][..i] == book[..i];
      var (cell, mark) := Mask(book[i], keep, deny);
      tally.Bump(mark);
      out := out + [book[i].(cell := cell)];
      i := i + 1;
    }
    assert book[..|book|] == book;
  }

  function TypedMarked(book: Book): (r: nat) {
    if book == [] then 0
    else
      var last := book[|book| - 1].cell;
      TypedMarked(book[..|book| - 1]) + if last.Typed? && last.content.Marked? then 1 else 0
  }

  function Formulas(book: Book): (r: nat) {
    if book == [] then 0 else Formulas(book[..|book| - 1]) + if book[|book| - 1].cell.Formula? then 1 else 0
  }

  /** Each typed cell that holds something is kept or redacted, each formula blanked, uncalculated or
      frozen. */
  lemma {:induction false} TallyAccounts(book: Book, keep: set<Place>, deny: set<Place>)
    ensures var t := Count(book, keep, deny);
      t.kept + t.redacted == TypedMarked(book) && t.blanked + t.uncalculated + t.frozen == Formulas(book)
  {
    if book != [] { TallyAccounts(book[..|book| - 1], keep, deny); }
  }

  /** The result depends on no formula text and on no stored result outside the kept cells. */
  ghost predicate AgreeOutside(a: Book, b: Book, keep: set<Place>) {
    |a| == |b| && forall i :: 0 <= i < |a| ==>
      && a[i].place == b[i].place && a[i].format == b[i].format
      && (a[i].cell.Typed? || b[i].cell.Typed? ==> a[i].cell == b[i].cell)
      && (a[i].cell.Formula? && a[i].place in keep ==> a[i].cell.cached == b[i].cell.cached)
  }

  lemma MaskHidesTheRest(a: Book, b: Book, keep: set<Place>, deny: set<Place>)
    requires AgreeOutside(a, b, keep)
    ensures MaskAll(a, keep, deny) == MaskAll(b, keep, deny)
  {
    forall i | 0 <= i < |a| ensures MaskAll(a, keep, deny)[i] == MaskAll(b, keep, deny)[i] {
      assert a[i].cell.Typed? ==> a[i].cell == b[i].cell;
      assert b[i].cell.Typed? ==> a[i].cell == b[i].cell;
    }
  }
}
