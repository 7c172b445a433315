/** The populated cells of a sheet, indexed by column for fast range queries, and the clipping of
    references to what is populated. */
module RangeIndex {
  import opened Options

  /** A populated cell: row and column. */
  type Place = (nat, nat)

  /** Columns and rows from and to, both included; a box may be reversed, and is then empty. */
  datatype Box = Box(minCol: nat, minRow: nat, maxCol: nat, maxRow: nat)

  predicate Inside(b: Box, p: Place) { b.minRow <= p.0 <= b.maxRow && b.minCol <= p.1 <= b.maxCol }

  /** Cells of the box's columns strictly between its rows when those are reversed. */
  predicate Between(b: Box, p: Place) { b.maxRow < p.0 < b.minRow && b.minCol <= p.1 <= b.maxCol }

  /** The plain filter every query stands for, repeats included. */
  function Filter(added: seq<Place>, b: Box): (r: seq<Place>) {
    if added == [] then []
    else Filter(added[..|added| - 1], b) + (if Inside(b, added[|added| - 1]) then [added[|added| - 1]] else [])
  }

  lemma {:induction false} FilterCounts(added: seq<Place>, b: Box, p: Place)
    ensures multiset(Filter(added, b))[p] == if Inside(b, p) then multiset(added)[p] else 0
  {
    if added != [] {
      var front, last := added[..|added| - 1], added[|added| - 1];
      assert added == front + [last];
      FilterCounts(front, b, p);
    }
  }

  lemma FilterHas(added: seq<Place>, b: Box, p: Place)
    ensures p in Filter(added, b) <==> p in added && Inside(b, p)
  {
    FilterCounts(added, b, p);
    assert p in Filter(added, b) <==> multiset(Filter(added, b))[p] > 0;
    assert p in added <==> multiset(added)[p] > 0;
  }

  // ---------- sorted rows ----------

  ghost predicate Sorted(s: seq<nat>) { forall i, j :: 0 <= i < j < |s| ==> s[i] <= s[j] }

  function Insert(x: nat, s: seq<nat>): (r: seq<nat>)
    ensures multiset(r) == multiset(s) + multiset{x}
  {
    if s == [] || x <= s[0] then [x] + s
    else
      assert s == [s[0]] + s[1..];
      [s[0]] + Insert(x, s[1..])
  }

  function Sort(s: seq<nat>): (r: seq<nat>)
    ensures multiset(r) == multiset(s)
  {
    if s == [] then []
    else
      assert s == [s[0]] + s[1..];
      Insert(s[0], Sort(s[1..]))
  }

  lemma {:induction false} InsertSorted(x: nat, s: seq<nat>)
    requires Sorted(s)
    ensures Sorted(Insert(x, s))
  {
    if s != [] && x > s[0] {
      var rest := Insert(x, s[1..]);
      InsertSorted(x, s[1..]);
      forall j | 0 <= j < |rest| ensures s[0] <= rest[j] {
        assert rest[j] in multiset(rest);
        assert rest[j] == x || rest[j] in s[1..];
      }
    }
  }

  lemma {:induction false} SortSorted(s: seq<nat>)
    ensures Sorted(Sort(s)) && |Sort(s)| == |s|
  {
    if s != [] {
      SortSorted(s[1..]);
      InsertSorted(s[0], Sort(s[1..]));
    }
    assert |multiset(Sort(s))| == |multiset(s)|;
  }

  /** The first place where x can stand. */
  method BisectLeft(s: seq<nat>, x: nat) returns (lo: nat)
    requires Sorted(s)
    ensures lo <= |s| && (forall i :: 0 <= i < lo ==> s[i] < x) && forall i :: lo <= i < |s| ==> s[i] >= x
  {
    var hi := |s|;
    lo := 0;
    while lo < hi
      invariant 0 <= lo <= hi <= |s|
      invariant (forall i :: 0 <= i < lo ==> s[i] < x) && forall i :: hi <= i < |s| ==> s[i] >= x
    {
      var mid := (lo + hi) / 2;
      if s[mid] < x { lo := mid + 1; } else { hi := mid; }
    }
  }

  /** The last place where x can stand. */
  method BisectRight(s: seq<nat>, x: nat) returns (lo: nat)
    requires Sorted(s)
    ensures lo <= |s| && (forall i :: 0 <= i < lo ==> s[i] <= x) && forall i :: lo <= i < |s| ==> s[i] > x
  {
    var hi := |s|;
    lo := 0;
    while lo < hi
      invariant 0 <= lo <= hi <= |s|
      invariant (forall i :: 0 <= i < lo ==> s[i] <= x) && forall i :: hi <= i < |s| ==> s[i] > x
    {
      var mid := (lo + hi) / 2;
      if x < s[mid] { hi := mid; } else { lo := mid + 1; }
    }
  }

  /** The rows of one column between two rows. */
  function RowsIn(rows: seq<nat>, low: nat, high: nat): (r: seq<nat>) {
    if rows == [] then []
    else RowsIn(rows[..|rows| - 1], low, high) + (if low <= rows[|rows| - 1] <= high then [rows[|rows| - 1]] else [])
  }

  lemma {:induction false} RowsInSlice(rows: seq<nat>, low: nat, high: nat, lo: nat, hi: nat)
    requires lo <= hi <= |rows|
    requires forall i :: 0 <= i < |rows| ==> (lo <= i < hi <==> low <= rows[i] <= high)
    ensures RowsIn(rows, low, high) == rows[lo..hi]
  {
    if rows != [] {
      var n := |rows| - 1;
      var front := rows[..n];
      if hi == |rows| && lo < hi {
        RowsInSlice(front, low, high, lo, hi - 1);
        assert rows[lo..hi] == front[lo..hi - 1] + [rows[n]];
      } else if hi == |rows| {
        RowsInSlice(front, low, high, n, n);
        assert rows[lo..hi] == [] && front[n..n] == [];
      } else {
        RowsInSlice(front, low, high, lo, hi);
        assert rows[lo..hi] == front[lo..hi];
      }
    }
  }

  lemma {:induction false} RowsInCounts(rows: seq<nat>, low: nat, high: nat, r: nat)
    ensures multiset(RowsIn(rows, low, high))[r] == if low <= r <= high then multiset(rows)[r] else 0
  {
    if rows != [] {
      var front, last := rows[..|rows| - 1], rows[|rows| - 1];
      assert rows == front + [last];
      RowsInCounts(front, low, high, r);
    }
  }

  /** What the two bisections say of a column: the difference of the two places counts the rows in
      the box, or, for reversed rows, counts those strictly between as negative. */
  lemma SliceMeans(rows: seq<nat>, low: nat, high: nat, lo: nat, hi: nat)
    requires lo <= |rows| && (forall i :: 0 <= i < lo ==> rows[i] < low)
    requires forall i :: lo <= i < |rows| ==> rows[i] >= low
    requires hi <= |rows| && (forall i :: 0 <= i < hi ==> rows[i] <= high)
    requires forall i :: hi <= i < |rows| ==> rows[i] > high
    ensures RowsIn(rows, low, high) == if lo <= hi then rows[lo..hi] else []
    ensures hi - lo == |RowsIn(rows, low, high)| - |RowsIn(rows, high + 1, if low > 0 then low - 1 else 0)|
  {
    if lo <= hi {
      RowsInSlice(rows, low, high, lo, hi);
      var under := if low > 0 then low - 1 else 0;
      assert forall i :: 0 <= i < |rows| ==> !(high + 1 <= rows[i] <= under);
      RowsInSlice(rows, high + 1, under, 0, 0);
    } else {
      assert rows[hi] < low;
      RowsInSlice(rows, low, high, 0, 0);
      RowsInSlice(rows, high + 1, low - 1, hi, lo);
    }
  }

  // ---------- column by column ----------

  function Column(rows: seq<nat>, col: nat): (s: seq<Place>)
    ensures |s| == |rows|
  {
    seq(|rows|, i requires 0 <= i < |rows| => (rows[i], col))
  }

  lemma {:induction false} ColumnCounts(rows: seq<nat>, col: nat, p: Place)
    ensures multiset(Column(rows, col))[p] == if p.1 == col then multiset(rows)[p.0] else 0
  {
    if rows != [] {
      var front, last := rows[..|rows| - 1], rows[|rows| - 1];
      assert rows == front + [last];
      assert Column(rows, col) == Column(front, col) + [(last, col)];
      assert p == (p.0, p.1);
      ColumnCounts(front, col, p);
    }
  }

  type Columns = map<nat, seq<nat>>

  function OfColumn(byCol: Columns, col: nat, b: Box): (r: seq<Place>) {
    if col in byCol && b.minCol <= col <= b.maxCol then Column(RowsIn(byCol[col], b.minRow, b.maxRow), col) else []
  }

  /** The cells of the box, column by column. */
  function Gather(byCol: Columns, cols: seq<nat>, b: Box): (r: seq<Place>) {
    if cols == [] then [] else Gather(byCol, cols[..|cols| - 1], b) + OfColumn(byCol, cols[|cols| - 1], b)
  }

  function Times(byCol: Columns, p: Place): (r: nat) {
    if p.1 in byCol then multiset(byCol[p.1])[p.0] else 0
  }

  predicate NoRepeats(s: seq<nat>) { forall i, j :: 0 <= i < j < |s| ==> s[i] != s[j] }

  lemma OfColumnCounts(byCol: Columns, col: nat, b: Box, p: Place)
    ensures multiset(OfColumn(byCol, col, b))[p] == if p.1 == col && Inside(b, p) then Times(byCol, p) else 0
  {
    if col in byCol && b.minCol <= col <= b.maxCol {
      ColumnCounts(RowsIn(byCol[col], b.minRow, b.maxRow), col, p);
      RowsInCounts(byCol[col], b.minRow, b.maxRow, p.0);
    }
  }

  lemma {:induction false} GatherCounts(byCol: Columns, cols: seq<nat>, b: Box, p: Place)
    requires NoRepeats(cols)
    ensures multiset(Gather(byCol, cols, b))[p] == if p.1 in cols && Inside(b, p) then Times(byCol, p) else 0
  {
    if cols != [] {
      hide OfColumn, Inside, Times;
      var front, last := cols[..|cols| - 1], cols[|cols| - 1];
      assert cols == front + [last];
      GatherCounts(byCol, front, b, p);
      OfColumnCounts(byCol, last, b, p);
      assert last !in front;
    }
  }

  /** The box of the rows strictly between reversed rows. */
  function Reversed(b: Box): (r: Box) {
    Box(b.minCol, b.maxRow + 1, b.maxCol, if b.minRow > 0 then b.minRow - 1 else 0)
  }

  ghost predicate StrictlySorted(s: seq<nat>) { forall i, j :: 0 <= i < j < |s| ==> s[i] < s[j] }

  predicate IsLeast(s: set<nat>, x: nat) { x in s && forall y :: y in s ==> x <= y }

  lemma LeastOfBoth(s: set<nat>, x: nat, m: nat)
    requires x in s && IsLeast(s - {x}, m)
    ensures IsLeast(s, if m < x then m else x)
  {
    forall y | y in s ensures y == x || m <= y {
      if y != x { assert y in s - {x}; }
    }
  }

  lemma {:induction false} LeastExists(s: set<nat>)
    requires s != {}
    ensures exists x :: IsLeast(s, x)
  {
    var x :| x in s;
    var rest := s - {x};
    if rest == {} {
      assert s == {x};
      assert IsLeast(s, x);
    } else {
      LeastExists(rest);
      var m :| IsLeast(rest, m);
      LeastOfBoth(s, x, m);
    }
  }

  function Least(s: set<nat>): (x: nat)
    requires s != {}
    ensures IsLeast(s, x)
  {
    LeastExists(s);
    var x :| x in s && IsLeast(s, x);
    x
  }

  function SortSet(s: set<nat>): (r: seq<nat>)
    ensures forall x :: x in r <==> x in s
    decreases |s|
  {
    if s == {} then [] else [Least(s)] + SortSet(s - {Least(s)})
  }

  lemma {:induction false} SortSetSorted(s: set<nat>)
    ensures StrictlySorted(SortSet(s))
    decreases |s|
  {
    if s != {} {
      var x, rest := Least(s), SortSet(s - {Least(s)});
      SortSetSorted(s - {x});
      forall j | 0 <= j < |rest| ensures x < rest[j] {
        assert rest[j] in rest;
        assert rest[j] in s - {x};
      }
    }
  }

  lemma {:induction false} GatherBeyond(byCol: Columns, cols: seq<nat>, b: Box, i: nat)
    requires i <= |cols| && forall j :: i <= j < |cols| ==> cols[j] > b.maxCol
    ensures Gather(byCol, cols, b) == Gather(byCol, cols[..i], b)
  {
    if i < |cols| {
      var front := cols[..|cols| - 1];
      GatherBeyond(byCol, front, b, i);
      assert front[..i] == cols[..i];
    } else {
      assert cols[..i] == cols;
    }
  }

  lemma SameSize(a: seq<Place>, b: seq<Place>)
    requires multiset(a) == multiset(b)
    ensures |a| == |b|
  {
    assert |multiset(a)| == |a| && |multiset(b)| == |b|;
  }

  // ---------- one column more ----------

  ghost function Net(byCol: Columns, cols: seq<nat>, b: Box): (r: int) {
    |Gather(byCol, cols, b)| - |Gather(byCol, cols, Reversed(b))|
  }

  lemma GatherStep(byCol: Columns, cols: seq<nat>, b: Box, i: nat)
    requires i < |cols|
    ensures Gather(byCol, cols[..i + 1], b) == Gather(byCol, cols[..i], b) + OfColumn(byCol, cols[i], b)
  {
    hide OfColumn;
    assert cols[..i + 1][..i] == cols[..i];
  }

  lemma GatherEmpty(byCol: Columns, b: Box)
    ensures Gather(byCol, [], b) == []
  {
  }

  lemma NetEmpty(byCol: Columns, b: Box)
    ensures Net(byCol, [], b) == 0
  {
  }

  lemma NetBeyond(byCol: Columns, cols: seq<nat>, b: Box, i: nat)
    requires i <= |cols| && forall j :: i <= j < |cols| ==> cols[j] > b.maxCol
    ensures Net(byCol, cols, b) == Net(byCol, cols[..i], b)
  {
    GatherBeyond(byCol, cols, b, i);
    GatherBeyond(byCol, cols, Reversed(b), i);
  }

  lemma NetStep(byCol: Columns, cols: seq<nat>, b: Box, i: nat)
    requires i < |cols|
    ensures Net(byCol, cols[..i + 1], b)
        == Net(byCol, cols[..i], b) + |OfColumn(byCol, cols[i], b)| - |OfColumn(byCol, cols[i], Reversed(b))|
  {
    hide OfColumn, Gather;
    GatherStep(byCol, cols, b, i);
    GatherStep(byCol, cols, Reversed(b), i);
  }

  lemma OfColumnIs(byCol: Columns, col: nat, b: Box)
    ensures col < b.minCol || col > b.maxCol ==>
        OfColumn(byCol, col, b) == [] && OfColumn(byCol, col, Reversed(b)) == []
    ensures b.minCol <= col <= b.maxCol && col in byCol ==>
              && OfColumn(byCol, col, b) == Column(RowsIn(byCol[col], b.minRow, b.maxRow), col)
              && OfColumn(byCol, col, Reversed(b))
                == Column(RowsIn(byCol[col], Reversed(b).minRow, Reversed(b).maxRow), col)
  {
    hide RowsIn, Column;
  }

  lemma {:induction false} ColumnAppend(rows: seq<nat>, lo: nat, k: nat, col: nat)
    requires lo <= k < |rows|
    ensures Column(rows[lo..k + 1], col) == Column(rows[lo..k], col) + [(rows[k], col)]
  {
    assert rows[lo..k + 1] == rows[lo..k] + [rows[k]];
  }

  // ---------- the index ----------

  ghost predicate HoldsFor(byCol: Columns, added: seq<Place>) {
    && (forall p :: Times(byCol, p) == multiset(added)[p])
    && forall c :: c in byCol ==> byCol[c] != []
  }

  /** Smallest and largest row of the cells. */
  ghost predicate RowFrame(cells: seq<Place>, low: nat, high: nat) {
    && (forall p :: p in cells ==> low <= p.0 <= high)
    && (exists p :: p in cells && p.0 == low)
    && exists p :: p in cells && p.0 == high
  }

  /** The box holds all the cells and each of its sides touches one. */
  ghost predicate Tight(b: Box, cells: seq<Place>) {
    && (forall p :: p in cells ==> Inside(b, p))
    && (exists p :: p in cells && p.0 == b.minRow)
    && (exists p :: p in cells && p.0 == b.maxRow)
    && (exists p :: p in cells && p.1 == b.minCol)
    && exists p :: p in cells && p.1 == b.maxCol
  }

  lemma TightSame(b: Box, xs: seq<Place>, ys: seq<Place>)
    requires Tight(b, xs) && multiset(xs) == multiset(ys)
    ensures Tight(b, ys)
  {
    forall p ensures p in xs <==> p in ys {
      assert p in multiset(xs) <==> p in multiset(ys);
    }
  }

  /** The box so far, widened by one more column's rows. */
  function Widened(b: Box, low: nat, high: nat, col: nat, found: bool): (r: Box) {
    if found then Box(b.minCol, if low < b.minRow then low else b.minRow, col,
                            if high > b.maxRow then high else b.maxRow)
    else Box(col, low, col, high)
  }

  lemma OldSides(b: Box, before: seq<Place>, more: seq<Place>)
    requires Tight(b, before)
    ensures b.minRow <= b.maxRow && b.minCol <= b.maxCol
    ensures exists p :: p in before + more && p.0 == b.minRow
    ensures exists p :: p in before + more && p.0 == b.maxRow
    ensures exists p :: p in before + more && p.1 == b.minCol
  {
    var p :| p in before && p.0 == b.minRow;
    assert p in before + more;
    var q :| q in before && q.0 == b.maxRow;
    assert q in before + more;
    var r :| r in before && r.1 == b.minCol;
    assert r in before + more;
  }

  lemma TightStep(b: Box, before: seq<Place>, rows: seq<nat>, lo: nat, hi: nat, col: nat, found: bool)
    requires lo < hi <= |rows| && forall i, j :: lo <= i < j < hi ==> rows[i] <= rows[j]
    requires (found <==> before != []) && (found ==> Tight(b, before) && b.maxCol < col)
    ensures Tight(Widened(b, rows[lo], rows[hi - 1], col, found), before + Column(rows[lo..hi], col))
    ensures before + Column(rows[lo..hi], col) != []
  {
    var low, high := rows[lo], rows[hi - 1];
    var more := Column(rows[lo..hi], col);
    var all := before + more;
    assert more[0] == (low, col) && more[0] in all;
    assert more[hi - lo - 1] == (high, col) && more[hi - lo - 1] in all;
    forall p | p in more ensures low <= p.0 <= high && p.1 == col {
      var k :| 0 <= k < |more| && more[k] == p;
      assert rows[lo..hi][k] == rows[lo + k];
    }
    if found { OldSides(b, before, more); }
  }

  class SheetIndex {
    var rowsByCol: Columns
    var cols: seq<nat>
    ghost var added: seq<Place>

    /** The lists hold the additions, column by column. */
    ghost predicate Holds()
      reads this
    {
      HoldsFor(rowsByCol, added)
    }

    /** Ready for queries. */
    ghost predicate Ready()
      reads this
    {
      && Holds() && StrictlySorted(cols) && (forall c :: c in cols <==> c in rowsByCol)
      && forall c :: c in rowsByCol ==> Sorted(rowsByCol[c])
    }

    constructor ()
      ensures Holds() && added == []
    {
      rowsByCol, cols, added := map[], [], [];
    }

    lemma TimesStep(byCol: Columns, rows: seq<nat>, row: nat, col: nat, p: Place)
      requires rows == if col in byCol then byCol[col] else []
      ensures Times(byCol[col := rows + [row]], p) == Times(byCol, p) + if p == (row, col) then 1 else 0
    {
      assert p == (p.0, p.1);
    }

    lemma AddedStep(added: seq<Place>, q: Place, p: Place)
      ensures multiset(added + [q])[p] == multiset(added)[p] + if p == q then 1 else 0
    {
    }

    lemma AddHolds(byCol: Columns, added: seq<Place>, row: nat, col: nat)
      requires HoldsFor(byCol, added)
      ensures HoldsFor(byCol[col := (if col in byCol then byCol[col] else []) + [row]], added + [(row, col)])
    {
      hide Times;
      var rows := if col in byCol then byCol[col] else [];
      var after := byCol[col := rows + [row]];
      forall p ensures Times(after, p) == multiset(added + [(row, col)])[p] {
        assert Times(byCol, p) == multiset(added)[p];
        TimesStep(byCol, rows, row, col, p);
        AddedStep(added, (row, col), p);
      }
    }

    method Add(row: nat, col: nat)
      requires Holds()
      modifies this
      ensures Holds() && added == old(added) + [(row, col)]
    {
      hide HoldsFor;
      var rows := if col in rowsByCol then rowsByCol[col] else [];
      AddHolds(rowsByCol, added, row, col);
      rowsByCol := rowsByCol[col := rows + [row]];
      added := added + [(row, col)];
    }

    method SortColumns()
      modifies this`rowsByCol
      ensures rowsByCol.Keys == old(rowsByCol).Keys
      ensures forall c :: c in rowsByCol ==> rowsByCol[c] == Sort(old(rowsByCol)[c])
    {
      hide Sort;
      ghost var before := rowsByCol;
      var rest := rowsByCol.Keys;
      while rest != {}
        invariant rest <= rowsByCol.Keys == before.Keys
        invariant forall c :: c in rowsByCol && c !in rest ==> rowsByCol[c] == Sort(before[c])
        invariant forall c :: c in rest ==> rowsByCol[c] == before[c]
        decreases |rest|
      {
        var c :| c in rest;
        rowsByCol := rowsByCol[c := Sort(rowsByCol[c])];
        rest := rest - {c};
      }
    }

    lemma SortedHolds(before: Columns, after: Columns, added: seq<Place>)
      requires HoldsFor(before, added)
      requires after.Keys == before.Keys && forall c :: c in after ==> after[c] == Sort(before[c])
      ensures HoldsFor(after, added) && forall c :: c in after ==> Sorted(after[c])
    {
      hide Sort, Sorted;
      forall c | c in after ensures after[c] != [] && Sorted(after[c]) { SortSorted(before[c]); }
      forall p ensures Times(after, p) == multiset(added)[p] {
        assert Times(before, p) == multiset(added)[p];
      }
    }

    method Finalise()
      requires Holds()
      modifies this
      ensures Ready() && added == old(added)
    {
      hide HoldsFor, Sort, Sorted, Times;
      ghost var before := rowsByCol;
      SortColumns();
      cols := SortSet(rowsByCol.Keys);
      SortSetSorted(rowsByCol.Keys);
      SortedHolds(before, rowsByCol, added);
    }

    /** Gathering column by column is the plain filter, up to order. */
    lemma GatherIsFilter(b: Box)
      requires Ready()
      ensures multiset(Gather(rowsByCol, cols, b)) == multiset(Filter(added, b))
      ensures |Gather(rowsByCol, cols, b)| == |Filter(added, b)|
      ensures forall p :: p in Gather(rowsByCol, cols, b) <==> p in added && Inside(b, p)
    {
      hide Inside, Gather, Filter;
      forall p ensures multiset(Gather(rowsByCol, cols, b))[p] == multiset(Filter(added, b))[p] {
        GatherCounts(rowsByCol, cols, b, p);
        FilterCounts(added, b, p);
        assert Times(rowsByCol, p) == multiset(added)[p];
      }
      SameSize(Gather(rowsByCol, cols, b), Filter(added, b));
      forall p ensures p in Gather(rowsByCol, cols, b) <==> p in added && Inside(b, p) {
        FilterHas(added, b, p);
        assert p in Gather(rowsByCol, cols, b) <==> p in multiset(Gather(rowsByCol, cols, b));
        assert p in Filter(added, b) <==> p in multiset(Filter(added, b));
      }
    }

    /** The slice of a column that lies in the box. */
    method Slice(col: nat, b: Box) returns (rows: seq<nat>, lo: nat, hi: nat)
      requires Ready() && col in rowsByCol
      ensures rows == rowsByCol[col] && lo <= |rows| && hi <= |rows|
      ensures RowsIn(rows, b.minRow, b.maxRow) == if lo <= hi then rows[lo..hi] else []
      ensures hi - lo == |RowsIn(rows, b.minRow, b.maxRow)| - |RowsIn(rows, Reversed(b).minRow, Reversed(b).maxRow)|
      ensures forall i, j :: lo <= i < j < hi ==> rows[i] <= rows[j]
    {
      rows := rowsByCol[col];
      assert Sorted(rows);
      hide Ready, RowsIn;
      lo := BisectLeft(rows, b.minRow);
      hi := BisectRight(rows, b.maxRow);
      SliceMeans(rows, b.minRow, b.maxRow, lo, hi);
    }

    lemma ColIn(i: nat)
      requires Ready() && i < |cols|
      ensures cols[i] in rowsByCol && forall j :: i <= j < |cols| ==> cols[j] >= cols[i]
      ensures forall j :: i < j < |cols| ==> cols[j] > cols[i]
    {
      assert cols[i] in cols;
    }

    lemma NetIs(b: Box)
      requires Ready()
      ensures Net(rowsByCol, cols, b) == |Filter(added, b)| - |Filter(added, Reversed(b))|
    {
      hide Filter, Gather, Ready, Reversed;
      GatherIsFilter(b);
      GatherIsFilter(Reversed(b));
    }

    /** The number of additions in the box. For reversed rows the bisections cross, and the rows
        strictly between them count as negative. */
    method Count(b: Box) returns (total: int)
      requires Ready()
      ensures total == |Filter(added, b)| - |Filter(added, Reversed(b))|
    {
      hide Filter, RowsIn, Gather, OfColumn, Ready, Reversed, Net;
      total := 0;
      var i := 0;
      NetEmpty(rowsByCol, b);
      while i < |cols|
        invariant 0 <= i <= |cols|
        invariant total == Net(rowsByCol, cols[..i], b)
      {
        var col := cols[i];
        ColIn(i);
        NetStep(rowsByCol, cols, b, i);
        OfColumnIs(rowsByCol, col, b);
        if col > b.maxCol {
          NetBeyond(rowsByCol, cols, b, i);
          break;
        }
        if col >= b.minCol {
          var rows, lo, hi := Slice(col, b);
          total := total + (hi as int - lo as int);
        }
        i := i + 1;
      }
      if i == |cols| { assert cols[..i] == cols; }
      NetIs(b);
    }

    method AppendRows(start: seq<Place>, rows: seq<nat>, lo: nat, hi: nat, col: nat) returns (out: seq<Place>)
      requires lo <= |rows| && hi <= |rows|
      ensures out == start + Column(if lo <= hi then rows[lo..hi] else [], col)
    {
      out := start;
      var k := lo;
      while k < hi
        invariant lo <= k && (k <= hi || k == lo)
        invariant out == start + Column(rows[lo..k], col)
      {
        hide Column;
        ColumnAppend(rows, lo, k, col);
        out := out + [(rows[k], col)];
        k := k + 1;
      }
    }

    /** The additions in the box, by column and row. */
    method Cells(b: Box) returns (out: seq<Place>)
      requires Ready()
      ensures out == Gather(rowsByCol, cols, b)
      ensures multiset(out) == multiset(Filter(added, b))
    {
      hide Filter, RowsIn, Gather, OfColumn, Ready, Reversed;
      out := [];
      var i := 0;
      GatherEmpty(rowsByCol, b);
      while i < |cols|
        invariant 0 <= i <= |cols|
        invariant out == Gather(rowsByCol, cols[..i], b)
      {
        var col := cols[i];
        ColIn(i);
        GatherStep(rowsByCol, cols, b, i);
        OfColumnIs(rowsByCol, col, b);
        if col > b.maxCol {
          GatherBeyond(rowsByCol, cols, b, i);
          break;
        }
        if col >= b.minCol {
          var rows, lo, hi := Slice(col, b);
          out := AppendRows(out, rows, lo, hi, col);
        }
        i := i + 1;
      }
      if i == |cols| { assert cols[..i] == cols; }
      GatherIsFilter(b);
    }

    /** The tight bounding box of the populated cells in the box, if there are any. */
    method Clip(b: Box) returns (r: Option<Box>)
      requires Ready()
      ensures r.None? <==> Filter(added, b) == []
      ensures r.Some? ==> Tight(r.value, Filter(added, b))
    {
      hide Filter, RowsIn, Gather, OfColumn, Ready, Reversed, Tight, Column;
      var found, box := false, Box(0, 0, 0, 0);
      var i := 0;
      GatherEmpty(rowsByCol, b);
      while i < |cols|
        invariant 0 <= i <= |cols|
        invariant found <==> Gather(rowsByCol, cols[..i], b) != []
        invariant found ==> Tight(box, Gather(rowsByCol, cols[..i], b))
        invariant found ==> forall j :: i <= j < |cols| ==> box.maxCol < cols[j]
      {
        var col := cols[i];
        ColIn(i);
        GatherStep(rowsByCol, cols, b, i);
        OfColumnIs(rowsByCol, col, b);
        ghost var before := Gather(rowsByCol, cols[..i], b);
        assert before + [] == before;
        if col > b.maxCol {
          GatherBeyond(rowsByCol, cols, b, i);
          break;
        }
        if col >= b.minCol {
          var rows, lo, hi := Slice(col, b);
          if lo < hi {
            TightStep(box, before, rows, lo, hi, col, found);
            box := Widened(box, rows[lo], rows[hi - 1], col, found);
            found := true;
          }
        }
        i := i + 1;
      }
      if i == |cols| { assert cols[..i] == cols; }
      GatherIsFilter(b);
      r := if found then Some(box) else None;
      if found { TightSame(box, Gather(rowsByCol, cols, b), Filter(added, b)); }
    }

    lemma NothingAdded()
      requires Ready() && cols == []
      ensures added == []
    {
      assert added == [] || added[0] in added;
      forall p ensures p !in added { assert Times(rowsByCol, p) == multiset(added)[p]; }
    }

    lemma InAdded(c: nat, k: nat)
      requires Holds() && c in rowsByCol && k < |rowsByCol[c]|
      ensures (rowsByCol[c][k], c) in added
    {
      var p := (rowsByCol[c][k], c);
      assert Times(rowsByCol, p) == multiset(added)[p];
      assert rowsByCol[c][k] in rowsByCol[c];
    }

    lemma Framed(low: nat, high: nat, lowCol: nat, highCol: nat)
      requires Ready()
      requires lowCol in rowsByCol && low == rowsByCol[lowCol][0]
      requires highCol in rowsByCol && high == rowsByCol[highCol][|rowsByCol[highCol]| - 1]
      requires forall j :: 0 <= j < |cols| ==>
          cols[j] in rowsByCol && low <= rowsByCol[cols[j]][0] && rowsByCol[cols[j]][|rowsByCol[cols[j]]| - 1] <= high
      ensures RowFrame(added, low, high) && added != []
    {
      forall p | p in added ensures low <= p.0 <= high {
        assert Times(rowsByCol, p) == multiset(added)[p] > 0;
        var rows := rowsByCol[p.1];
        assert p.0 in rows;
        var k :| 0 <= k < |rows| && rows[k] == p.0;
        assert p.1 in cols;
        var j :| 0 <= j < |cols| && cols[j] == p.1;
      }
      InAdded(lowCol, 0);
      InAdded(highCol, |rowsByCol[highCol]| - 1);
    }

    /** The first and last populated rows of the sheet. */
    method UsedRows() returns (r: Option<(nat, nat)>)
      requires Ready()
      ensures r.None? <==> added == []
      ensures r.Some? ==> RowFrame(added, r.value.0, r.value.1)
    {
      if cols == [] {
        NothingAdded();
        return None;
      }
      assert cols[0] in cols;
      var low, high := rowsByCol[cols[0]][0], rowsByCol[cols[0]][|rowsByCol[cols[0]]| - 1];
      ghost var lowCol, highCol := cols[0], cols[0];
      var i := 0;
      while i < |cols|
        invariant 0 <= i <= |cols|
        invariant lowCol in rowsByCol && low == rowsByCol[lowCol][0]
        invariant highCol in rowsByCol && high == rowsByCol[highCol][|rowsByCol[highCol]| - 1]
        invariant forall j :: 0 <= j < i ==>
          cols[j] in rowsByCol && low <= rowsByCol[cols[j]][0] && rowsByCol[cols[j]][|rowsByCol[cols[j]]| - 1] <= high
      {
        assert cols[i] in cols;
        var rows := rowsByCol[cols[i]];
        if rows[0] < low { low, lowCol := rows[0], cols[i]; }
        if rows[|rows| - 1] > high { high, highCol := rows[|rows| - 1], cols[i]; }
        i := i + 1;
      }
      Framed(low, high, lowCol, highCol);
      r := Some((low, high));
    }
  }

  // ---------- what clipping and counting promise ----------

  lemma ClipWithin(added: seq<Place>, b: Box, c: Box)
    requires Tight(c, Filter(added, b))
    ensures b.minRow <= c.minRow && c.maxRow <= b.maxRow && b.minCol <= c.minCol && c.maxCol <= b.maxCol
  {
    var cells := Filter(added, b);
    var p :| p in cells && p.0 == c.minRow;
    FilterHas(added, b, p);
    var q :| q in cells && q.0 == c.maxRow;
    FilterHas(added, b, q);
    var r :| r in cells && r.1 == c.minCol;
    FilterHas(added, b, r);
    var s :| s in cells && s.1 == c.maxCol;
    FilterHas(added, b, s);
  }

  lemma {:induction false} SameFilter(added: seq<Place>, b: Box, c: Box, part: seq<Place>)
    requires forall p :: p in part ==> p in added
    requires forall p :: p in Filter(added, b) ==> Inside(c, p)
    requires b.minRow <= c.minRow && c.maxRow <= b.maxRow && b.minCol <= c.minCol && c.maxCol <= b.maxCol
    ensures Filter(part, c) == Filter(part, b)
  {
    if part != [] {
      var front, last := part[..|part| - 1], part[|part| - 1];
      assert part == front + [last];
      SameFilter(added, b, c, front);
      FilterHas(added, b, last);
    }
  }

  /** The clipped box and the original box hold the same cells. */
  lemma {:induction false} ClipKeepsCells(added: seq<Place>, b: Box, c: Box)
    requires Tight(c, Filter(added, b))
    ensures Filter(added, c) == Filter(added, b)
  {
    ClipWithin(added, b, c);
    SameFilter(added, b, c, added);
  }

  /** No smaller box holds the cells. */
  lemma ClipIsLeast(added: seq<Place>, b: Box, c: Box, d: Box)
    requires Tight(c, Filter(added, b)) && forall p :: p in Filter(added, b) ==> Inside(d, p)
    ensures d.minRow <= c.minRow && c.maxRow <= d.maxRow && d.minCol <= c.minCol && c.maxCol <= d.maxCol
  {
    var cells := Filter(added, b);
    var p :| p in cells && p.0 == c.minRow;
    var q :| q in cells && q.0 == c.maxRow;
    var r :| r in cells && r.1 == c.minCol;
    var s :| s in cells && s.1 == c.maxCol;
  }

  /** The count is the size of the filter exactly when no populated cell of the columns lies strictly
      between reversed rows, as is always so when the rows are in order. */
  lemma CountIsSize(added: seq<Place>, b: Box)
    ensures |Filter(added, b)| - |Filter(added, Reversed(b))| == |Filter(added, b)|
        <==> forall p :: p in added ==> !Between(b, p)
    ensures b.minRow <= b.maxRow + 1 ==> |Filter(added, Reversed(b))| == 0
    ensures b.minRow > b.maxRow ==> |Filter(added, b)| == 0
  {
    var back := Filter(added, Reversed(b));
    forall p ensures p in back <==> p in added && Between(b, p) { FilterHas(added, Reversed(b), p); }
    if back != [] { assert back[0] in back; }
    if Filter(added, b) != [] {
      var p := Filter(added, b)[0];
      FilterHas(added, b, p);
    }
  }

  /** One populated cell in row 3, counted between rows 5 and 1: the index says -1. */
  method CountsBelowZero() returns (total: int)
    ensures total == -1
  {
    var index := new SheetIndex();
    index.Add(3, 1);
    index.Finalise();
    assert index.added == [(3, 1)] && [(3, 1)][..0] == [];
    total := index.Count(Box(1, 5, 1, 1));
  }
}
