/** What a reference to a block of cells resolves to: its cells, one clipped range, or the shared row
    frame of whole columns. */
module ReferenceClipping {
  import opened Options
  import opened RangeIndex

  const MAX_ROW := 1048576

  datatype Target =
    | CellTarget(sheet: string, row: nat, col: nat)
    | RangeTarget(sheet: string, box: Box, size: int)
    | NameTarget

  ghost predicate OutsideRows(b: Box, p: Place) { b.minCol <= p.1 <= b.maxCol && !(b.minRow <= p.0 <= b.maxRow) }

  /** A populated cell of the box's columns lies outside its rows. */
  ghost predicate SomeOutside(added: seq<Place>, b: Box) { exists p :: p in added && OutsideRows(b, p) }

  /** The cell is a target itself or lies in a target range. */
  ghost predicate Reached(out: seq<Target>, sheet: string, p: Place) {
    CellTarget(sheet, p.0, p.1) in out || exists t :: t in out && t.RangeTarget? && t.sheet == sheet && Inside(t.box, p)
  }

  function CellTargets(sheet: string, cells: seq<Place>): (s: seq<Target>)
    ensures |s| == |cells|
  {
    seq(|cells|, i requires 0 <= i < |cells| => CellTarget(sheet, cells[i].0, cells[i].1))
  }

  /** Whole columns: every row of the sheet. */
  predicate WholeBox(b: Box) { b.minRow == 1 && b.maxRow == MAX_ROW }

  ghost predicate RowsValid(added: seq<Place>) { forall p :: p in added ==> 1 <= p.0 <= MAX_ROW }

  function RowBudget(limit: int, count: int): (rows: nat)
    requires count > 0
    ensures rows >= 1
  {
    if limit / count > 1 then limit / count else 1
  }

  lemma OmittedIff(added: seq<Place>, below: Box, box: Box, low: nat, high: nat)
    requires RowFrame(added, low, high) && box.minRow == low && box.maxRow < high
    requires below == Box(box.minCol, box.maxRow + 1, box.maxCol, high)
    ensures |Filter(added, below)| > 0 <==> SomeOutside(added, box)
  {
    hide Filter;
    forall p: Place ensures p in Filter(added, below) <==> p in added && OutsideRows(box, p) {
      FilterHas(added, below, p);
      if p in added { assert low <= p.0 <= high; }
    }
    if |Filter(added, below)| > 0 { assert Filter(added, below)[0] in Filter(added, below); }
  }

  lemma NoneOmitted(added: seq<Place>, box: Box, low: nat, high: nat)
    requires RowFrame(added, low, high) && box.minRow == low && box.maxRow == high
    ensures !SomeOutside(added, box)
  {
  }

  /** Whole columns become one range that starts in the sheet's first populated row. It stays within
      the limit unless it is one row, and ends in the last populated row or where one row more would
      exceed the limit. */
  ghost predicate FrameOutcome(added: seq<Place>, sheet: string, b: Box, limit: int, out: seq<Target>) {
    && b.minCol <= b.maxCol && |out| == 1 && out[0].RangeTarget? && out[0].sheet == sheet
    && var box, count := out[0].box, b.maxCol - b.minCol + 1;
      && box.minCol == b.minCol && box.maxCol == b.maxCol && box.minRow <= box.maxRow
      && out[0].size == count * (box.maxRow - box.minRow + 1)
      && (box.minRow == box.maxRow || out[0].size <= limit)
      && exists low: nat, high: nat ::
        && RowFrame(added, low, high) && low == box.minRow && box.maxRow <= high
        && (box.maxRow == high || count * (box.maxRow - box.minRow + 2) > limit)
  }

  lemma LessProduct(a: int, x: int, y: int)
    requires a > 0 && x <= y
    ensures a * x <= a * y
  {
  }

  /** As many rows as fit, and at least one. */
  lemma BudgetFits(limit: int, count: int)
    requires count > 0
    ensures RowBudget(limit, count) == 1 || count * RowBudget(limit, count) <= limit
    ensures count * (RowBudget(limit, count) + 1) > limit
  {
    assert limit == count * (limit / count) + limit % count;
    if limit / count <= 1 {
      assert limit / count + 1 <= 2;
      LessProduct(count, limit / count + 1, 2);
    }
  }

  /** All that a reference to a known sheet resolves to. */
  ghost predicate Outcome(added: seq<Place>, sheet: string, b: Box, whole: bool, limit: int, out: seq<Target>) {
    var cells := Filter(added, b);
    var n := |cells| - |Filter(added, Reversed(b))|;
    if n == 0 then out == if b.minCol == b.maxCol && b.minRow == b.maxRow then [CellTarget(sheet, b.minRow, b.minCol)]
      else []
    else if whole then FrameOutcome(added, sheet, b, limit, out)
    else if n > limit then
      |out| == 1 && out[0].RangeTarget? && out[0].sheet == sheet && out[0].size == n
      && (if cells == [] then out[0].box == b else Tight(out[0].box, cells) && Filter(added, out[0].box) == cells)
    else
      && (forall p: Place :: CellTarget(sheet, p.0, p.1) in out <==> p in added && Inside(b, p))
      && |out| == |cells| && forall t :: t in out ==> t.CellTarget? && t.sheet == sheet
  }

  lemma ClippedReaches(added: seq<Place>, sheet: string, b: Box, box: Option<Box>, n: int)
    requires box.None? <==> Filter(added, b) == []
    requires box.Some? ==> Tight(box.value, Filter(added, b))
    ensures box.Some? ==> Filter(added, box.value) == Filter(added, b)
  {
    if box.Some? { ClipKeepsCells(added, b, box.value); }
  }

  lemma CellsReach(added: seq<Place>, sheet: string, b: Box, cells: seq<Place>)
    requires multiset(cells) == multiset(Filter(added, b))
    ensures forall p: Place :: CellTarget(sheet, p.0, p.1) in CellTargets(sheet, cells) <==> p in added && Inside(b, p)
    ensures |cells| == |Filter(added, b)|
  {
    hide Filter;
    SameSize(cells, Filter(added, b));
    var out := CellTargets(sheet, cells);
    forall p: Place ensures CellTarget(sheet, p.0, p.1) in out <==> p in added && Inside(b, p) {
      FilterHas(added, b, p);
      assert p in cells <==> p in multiset(cells);
      assert p in Filter(added, b) <==> p in multiset(Filter(added, b));
      if p in cells {
        var i :| 0 <= i < |cells| && cells[i] == p;
        assert out[i] == CellTarget(sheet, p.0, p.1);
      }
      if CellTarget(sheet, p.0, p.1) in out {
        var i :| 0 <= i < |out| && out[i] == CellTarget(sheet, p.0, p.1);
        assert cells[i] == p;
      }
    }
  }

  lemma NothingPopulated(added: seq<Place>, b: Box)
    requires RowsValid(added) && WholeBox(b)
    ensures Filter(added, b) == [] <==> forall p :: p in added ==> !(b.minCol <= p.1 <= b.maxCol)
  {
    hide Filter;
    forall p ensures p in Filter(added, b) <==> p in added && b.minCol <= p.1 <= b.maxCol {
      FilterHas(added, b, p);
    }
    if Filter(added, b) != [] { assert Filter(added, b)[0] in Filter(added, b); }
  }

  /** Whole columns give nothing exactly when none of them holds a cell, and one range otherwise: from
      the sheet's first populated row, within the limit or a single row, to the last populated row or
      to where one row more would exceed the limit. */
  lemma ColumnsByLimit(added: seq<Place>, sheet: string, b: Box, limit: int, out: seq<Target>)
    requires Outcome(added, sheet, b, true, limit, out) && RowsValid(added) && WholeBox(b)
    ensures out == [] <==> forall p :: p in added ==> !(b.minCol <= p.1 <= b.maxCol)
    ensures out != [] ==>
      && |out| == 1 && out[0].RangeTarget? && out[0].sheet == sheet
      && var box, size, count := out[0].box, out[0].size, b.maxCol - b.minCol + 1;
        && box.minCol == b.minCol && box.maxCol == b.maxCol && box.minRow <= box.maxRow
        && (exists p :: p in added && p.0 == box.minRow) && (forall p :: p in added ==> box.minRow <= p.0)
        && size == count * (box.maxRow - box.minRow + 1) && (box.minRow == box.maxRow || size <= limit)
        && ((forall p :: p in added ==> p.0 <= box.maxRow) || count * (box.maxRow - box.minRow + 2) > limit)
  {
    hide Filter;
    CountIsSize(added, b);
    NothingPopulated(added, b);
  }

  lemma FrameIsOne(added: seq<Place>, sheet: string, b: Box, limit: int, out: seq<Target>)
    requires FrameOutcome(added, sheet, b, limit, out)
    ensures |out| == 1
  {
  }

  class Resolver {
    const index: map<string, SheetIndex>
    const limit: int
    var truncated: set<(string, Box)>

    /** Every sheet's index is ready, and exactly ranges that leave a populated cell of their columns
        outside are marked as truncated. */
    ghost predicate Valid()
      reads this, index.Values
    {
      && (forall s :: s in index ==> index[s].Ready() && RowsValid(index[s].added))
      && forall t :: t in truncated ==> t.0 in index && SomeOutside(index[t.0].added, t.1)
    }

    constructor (index: map<string, SheetIndex>, limit: int)
      requires forall s :: s in index ==> index[s].Ready() && RowsValid(index[s].added)
      ensures Valid() && this.index == index && this.limit == limit && truncated == {}
    {
      this.index, this.limit, truncated := index, limit, {};
    }

    /** Whole columns keep one frame of rows for the sheet, cut to the budget. */
    method ResolveColumns(sheet: string, b: Box) returns (out: seq<Target>)
      requires Valid() && sheet in index && WholeBox(b) && Filter(index[sheet].added, b) != []
      modifies this`truncated
      ensures Valid() && old(truncated) <= truncated
      ensures FrameOutcome(index[sheet].added, sheet, b, limit, out)
      ensures (sheet, out[0].box) in truncated <==> SomeOutside(index[sheet].added, out[0].box)
    {
      hide SheetIndex.Ready, RowsValid, Filter;
      var idx := index[sheet];
      var used := idx.UsedRows();
      ghost var p := Filter(idx.added, b)[0];
      FilterHas(idx.added, b, p);
      assert idx.added != [];
      var (low, high) := used.value;
      var count := b.maxCol - b.minCol + 1;
      var rows := RowBudget(limit, count);
      var cut := if low + rows - 1 < high then low + rows - 1 else high;
      var omitted := false;
      var box := Box(b.minCol, low, b.maxCol, cut);
      if cut < high {
        var below := Box(b.minCol, cut + 1, b.maxCol, high);
        var extra := idx.Count(below);
        CountIsSize(idx.added, below);
        omitted := extra > 0;
        OmittedIff(idx.added, below, box, low, high);
      } else {
        NoneOmitted(idx.added, box, low, high);
      }
      if omitted { truncated := truncated + {(sheet, box)}; }
      BudgetFits(limit, count);
      LessProduct(count, cut as int - low as int + 1, rows);
      out := [RangeTarget(sheet, box, count * (cut as int - low as int + 1))];
    }

    method ResolveKnown(sheet: string, b: Box, whole: bool) returns (out: seq<Target>)
      requires Valid() && sheet in index && (whole ==> WholeBox(b))
      modifies this
      ensures Valid() && old(truncated) <= truncated
      ensures Outcome(index[sheet].added, sheet, b, whole, limit, out)
      ensures whole ==> forall t :: t in out && t.RangeTarget? ==>
        ((sheet, t.box) in truncated <==> SomeOutside(index[sheet].added, t.box))
      ensures !whole ==> truncated == old(truncated)
    {
      hide SheetIndex.Ready, RowsValid, SomeOutside, Filter, FrameOutcome, Tight, Reversed, Inside, Between;
      var idx := index[sheet];
      var n := idx.Count(b);
      CountIsSize(idx.added, b);
      if n == 0 {
        out := if b.minCol == b.maxCol && b.minRow == b.maxRow then [CellTarget(sheet, b.minRow, b.minCol)] else [];
      } else if whole {
        out := ResolveColumns(sheet, b);
        assert |out| == 1 by { FrameIsOne(idx.added, sheet, b, limit, out); }
      } else if n > limit {
        var box := idx.Clip(b);
        out := [RangeTarget(sheet, if box.Some? then box.value else b, n)];
        ClippedReaches(idx.added, sheet, b, box, n);
      } else {
        var cells := idx.Cells(b);
        CellsReach(idx.added, sheet, b, cells);
        out := CellTargets(sheet, cells);
      }
    }

    lemma RowsOf(sheet: string)
      requires Valid() && sheet in index
      ensures RowsValid(index[sheet].added)
    {
    }

    /** One sheet of a reference: its name if there is no such sheet. */
    method ResolveOn(sheet: string, b: Box, whole: bool) returns (out: seq<Target>)
      requires Valid() && (whole ==> WholeBox(b))
      modifies this
      ensures Valid() && old(truncated) <= truncated
      ensures sheet !in index ==> out == [NameTarget]
      ensures sheet in index ==> Outcome(index[sheet].added, sheet, b, whole, limit, out)
      ensures sheet in index && whole ==> forall t :: t in out && t.RangeTarget? ==>
        ((sheet, t.box) in truncated <==> SomeOutside(index[sheet].added, t.box))
      ensures !whole ==> truncated == old(truncated)
      ensures sheet in index && whole ==>
        (out == [] <==> forall p :: p in index[sheet].added ==> !(b.minCol <= p.1 <= b.maxCol))
      ensures sheet in index && whole && out != [] ==>
        && |out| == 1 && out[0].RangeTarget? && out[0].sheet == sheet
        && var box, size, added, count := out[0].box, out[0].size, index[sheet].added, b.maxCol - b.minCol + 1;
          && box.minCol == b.minCol && box.maxCol == b.maxCol && box.minRow <= box.maxRow
          && (exists p :: p in added && p.0 == box.minRow) && (forall p :: p in added ==> box.minRow <= p.0)
          && size == count * (box.maxRow - box.minRow + 1) && (box.minRow == box.maxRow || size <= limit)
          && ((forall p :: p in added ==> p.0 <= box.maxRow) || count * (box.maxRow - box.minRow + 2) > limit)
    {
      hide *;
      if sheet !in index { return [NameTarget]; }
      RowsOf(sheet);
      out := ResolveKnown(sheet, b, whole);
      if whole { ColumnsByLimit(index[sheet].added, sheet, b, limit, out); }
    }
  }

  /** No populated cell of the reference is lost: each is a target or lies in a target range, unless
      whole columns were cut, and then it lies outside the range that is marked. */
  lemma EveryCellIsReached(added: seq<Place>, sheet: string, b: Box, whole: bool, limit: int, out: seq<Target>,
                           p: Place)
    requires Outcome(added, sheet, b, whole, limit, out) && p in added && Inside(b, p) && (whole ==> WholeBox(b))
    ensures Reached(out, sheet, p)
      || (whole && exists t :: t in out && t.RangeTarget? && OutsideRows(t.box, p) && SomeOutside(added, t.box))
  {
    var cells := Filter(added, b);
    FilterHas(added, b, p);
    CountIsSize(added, b);
    var n := |cells| - |Filter(added, Reversed(b))|;
    assert n > 0;
    if whole {
      var t := out[0];
      assert t in out;
      if !Inside(t.box, p) { assert OutsideRows(t.box, p); }
    } else if n > limit {
      assert out[0] in out;
    } else {
      assert CellTarget(sheet, p.0, p.1) in out;
    }
  }

  /** Nothing else is a target: a cell target is a populated cell of the box or the one blank cell the
      reference names. */
  lemma OnlyCellsAreTargets(added: seq<Place>, sheet: string, b: Box, whole: bool, limit: int, out: seq<Target>,
                            p: Place)
    requires Outcome(added, sheet, b, whole, limit, out) && CellTarget(sheet, p.0, p.1) in out
    ensures Inside(b, p) && (p in added || (b.minCol == b.maxCol && b.minRow == b.maxRow))
  {
  }

  lemma {:induction false} FilterSize(added: seq<Place>, b: Box)
    ensures |Filter(added, b)| == |set i: nat | i < |added| && Inside(b, added[i])|
  {
    var hits := set i: nat | i < |added| && Inside(b, added[i]);
    if added == [] {
      assert hits == {};
    } else {
      var init := added[..|added| - 1];
      var before := set i: nat | i < |init| && Inside(b, init[i]);
      FilterSize(init, b);
      if Inside(b, added[|added| - 1]) {
        assert hits == before + {|added| - 1};
      } else {
        assert hits == before;
      }
    }
  }

  lemma CountedIs(added: seq<Place>, b: Box)
    requires b.minRow <= b.maxRow
    ensures
      var hits := set i: nat | i < |added| && b.minRow <= added[i].0 <= b.maxRow && b.minCol <= added[i].1 <= b.maxCol;
      && |Filter(added, b)| == |hits| && |Filter(added, Reversed(b))| == 0
      && (forall p :: p in Filter(added, b) <==> exists i :: i in hits && added[i] == p)
      && (hits == {} <==> |hits| == 0)
  {
    FilterSize(added, b);
    CountIsSize(added, b);
    var hits := set i: nat | i < |added| && b.minRow <= added[i].0 <= b.maxRow && b.minCol <= added[i].1 <= b.maxCol;
    assert hits == set i: nat | i < |added| && Inside(b, added[i]);
    forall p ensures p in Filter(added, b) <==> exists i :: i in hits && added[i] == p {
      FilterHas(added, b, p);
    }
  }

  /** A block whose columns and rows run forward, by the populated cells counted in it: none gives
      nothing, or the one blank cell it names; up to the limit they are the targets, as many as were
      counted; above it they become one range of that size, whose four sides all touch one of them. */
  lemma BlocksByCount(added: seq<Place>, sheet: string, b: Box, limit: int, out: seq<Target>)
    requires Outcome(added, sheet, b, false, limit, out) && b.minRow <= b.maxRow && b.minCol <= b.maxCol
    ensures
      var hits := set i: nat | i < |added| && b.minRow <= added[i].0 <= b.maxRow && b.minCol <= added[i].1 <= b.maxCol;
      && (hits == {} ==>
        out == if b.minCol == b.maxCol && b.minRow == b.maxRow then [CellTarget(sheet, b.minRow, b.minCol)] else [])
      && (0 < |hits| <= limit ==>
        && |out| == |hits| && (forall i :: i in hits ==> CellTarget(sheet, added[i].0, added[i].1) in out)
        && forall t :: t in out ==> exists i :: i in hits && t == CellTarget(sheet, added[i].0, added[i].1))
      && (|hits| > 0 && |hits| > limit ==>
        && |out| == 1 && out[0].RangeTarget? && out[0].sheet == sheet && out[0].size == |hits|
        && var box := out[0].box;
          && (forall i :: i in hits ==>
              box.minRow <= added[i].0 <= box.maxRow && box.minCol <= added[i].1 <= box.maxCol)
          && (exists i :: i in hits && added[i].0 == box.minRow) && (exists i :: i in hits && added[i].0 == box.maxRow)
          && (exists i :: i in hits && added[i].1 == box.minCol) && exists i :: i in hits && added[i].1 == box.maxCol)
  {
    hide Filter, FrameOutcome;
    var hits := set i: nat | i < |added| && b.minRow <= added[i].0 <= b.maxRow && b.minCol <= added[i].1 <= b.maxCol;
    var cells := Filter(added, b);
    CountedIs(added, b);
    if 0 < |hits| <= limit {
      forall t | t in out ensures exists i :: i in hits && t == CellTarget(sheet, added[i].0, added[i].1) {
        var p: Place := (t.row, t.col);
        assert CellTarget(sheet, p.0, p.1) in out;
        assert p in cells by { FilterHas(added, b, p); }
      }
    } else if |hits| > 0 {
      forall i | i in hits ensures Inside(out[0].box, added[i]) {
        assert added[i] in cells;
      }
    }
  }
}
