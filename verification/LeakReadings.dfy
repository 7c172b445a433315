/** What the closure does to each row, said of references, cells and sheets alone. */
module LeakReadings {
  import opened AuditRows
  import opened LeakClosure

  /** The cell may be masked along with a value: the part before its last exclamation mark names a
      picklist sheet, and the cell does not exist only in the delivered workbook. */
  ghost predicate MayHide(p: Policy, o: string) {
    && o !in p.baselineOnly
    && if '!' in o then exists sheet, address :: o == sheet + "!" + address && '!' !in address && p.picklist(sheet)
       else p.picklist("")
  }

  lemma {:induction false} SheetOfIs(ref: string)
    ensures '!' !in ref ==> SheetOf(ref) == ""
    ensures '!' in ref ==>
      |SheetOf(ref)| < |ref| && ref == SheetOf(ref) + "!" + ref[|SheetOf(ref)| + 1..]
      && '!' !in ref[|SheetOf(ref)| + 1..]
  {
    if ref != "" && ref[|ref| - 1] != '!' {
      var front, last := ref[..|ref| - 1], ref[|ref| - 1];
      assert ref == front + [last];
      SheetOfIs(front);
      if '!' in ref {
        var sheet := SheetOf(front);
        hide SheetOf;
        assert ref[|sheet| + 1..] == front[|sheet| + 1..] + [last];
        assert ref == sheet + "!" + ref[|sheet| + 1..];
      }
    } else if ref != "" {
      assert ref == ref[..|ref| - 1] + "!" + ref[|ref|..];
    }
  }

  lemma LastMark(sheet: string, address: string)
    requires '!' !in address
    ensures var s := sheet + "!" + address; s[|sheet|] == '!' && forall k :: |sheet| < k < |s| ==> s[k] != '!'
  {
    var s := sheet + "!" + address;
    forall k | |sheet| < k < |s| ensures s[k] != '!' {
      assert s[k] == address[k - |sheet| - 1];
      assert s[k] in address;
    }
  }

  /** There is only one last exclamation mark. */
  lemma SameSheet(sheet: string, address: string, other: string, rest: string)
    requires sheet + "!" + address == other + "!" + rest && '!' !in address && '!' !in rest
    ensures sheet == other
  {
    LastMark(sheet, address);
    LastMark(other, rest);
    assert |sheet| == |other|;
    assert (sheet + "!" + address)[..|sheet|] == sheet && (other + "!" + rest)[..|sheet|] == other;
  }

  lemma MaskableIs(p: Policy, o: string)
    ensures Maskable(p, o) <==> MayHide(p, o)
  {
    SheetOfIs(o);
    hide SheetOf;
    if '!' in o {
      var sheet, address := SheetOf(o), o[|SheetOf(o)| + 1..];
      forall other, rest | o == other + "!" + rest && '!' !in rest ensures other == sheet {
        SameSheet(sheet, address, other, rest);
      }
      assert o == sheet + "!" + address && '!' !in address;
    }
  }

  lemma RefsAre(cells: seq<Cell>, o: string)
    ensures o in Refs(cells) <==> exists c :: c in cells && o == c.sheet + "!" + c.address
  {
    if c :| c in cells && o == c.sheet + "!" + c.address { assert RefOf(c) == o; }
  }

  /** The rows of s are all clean, and every cell that repeats the value of one of them may be masked
      along or is a cell of one of them. */
  ghost predicate HideTogether(p: Policy, rows: seq<Audit>, s: set<nat>) {
    forall i :: i in s ==> i < |rows| && rows[i].clean && forall o :: o in rows[i].duplicates ==>
      MayHide(p, o) || exists j, c :: j in s && j < |rows| && c in rows[j].cells && o == c.sheet + "!" + c.address
  }

  lemma SupportedIs(p: Policy, rows: seq<Audit>, s: set<nat>)
    ensures Supported(p, rows, s) <==> HideTogether(p, rows, s)
  {
    hide Maskable, MayHide, Refs;
    forall o { MaskableIs(p, o); }
    forall o ensures Held(rows, s, o)
      <==> exists j, c :: j in s && j < |rows| && c in rows[j].cells && o == c.sheet + "!" + c.address
    {
      if Held(rows, s, o) {
        var j :| j in s && j < |rows| && o in Refs(rows[j].cells);
        RefsAre(rows[j].cells, o);
      }
      if j, c :| j in s && j < |rows| && c in rows[j].cells && o == c.sheet + "!" + c.address {
        RefsAre(rows[j].cells, o);
      }
    }
  }

  /** The rows that stay clean hide together, every set of rows that hides together stays clean, and
      every cell that repeats a clean row's value is a clean row's cell or extra cell. */
  lemma CleanRowsAre(p: Policy, rows: seq<Audit>, t: set<nat>)
    requires forall i :: 0 <= i < |rows| ==> rows[i].extra == {}
    ensures var after := Close(p, rows);
      && |after| == |rows|
      && HideTogether(p, rows, set i: nat | i < |rows| && after[i].clean)
      && (HideTogether(p, rows, t) ==> forall i :: i in t ==> i < |rows| && after[i].clean)
      && forall i, o :: 0 <= i < |rows| && after[i].clean && o in rows[i].duplicates ==>
        exists j ::
          && 0 <= j < |rows| && after[j].clean
          && (o in after[j].extra || exists c :: c in rows[j].cells && o == c.sheet + "!" + c.address)
  {
    hide HideTogether, Supported, Close, Refs;
    var after := Close(p, rows);
    CloseIsGreatest(p, rows, t);
    SupportedIs(p, rows, t);
    SupportedIs(p, rows, Survivors(after));
    assert Survivors(after) == set i: nat | i < |rows| && after[i].clean;
    forall i, o | 0 <= i < |rows| && after[i].clean && o in rows[i].duplicates
      ensures exists j ::
        && 0 <= j < |rows| && after[j].clean
        && (o in after[j].extra || exists c :: c in rows[j].cells && o == c.sheet + "!" + c.address)
    {
      assert i in Survivors(after);
      assert o in Covered(after);
      if o in ExtrasOf(after) {
        var j :| 0 <= j < |after| && after[j].clean && o in after[j].extra;
      } else {
        var j :| 0 <= j < |after| && after[j].clean && o in Refs(after[j].cells);
        RefsAre(rows[j].cells, o);
      }
    }
  }

  /** A row that is clean and stays so only gains extra cells; one that falls is told which cells leak
      its value, under the closure's own code; one that was not clean is left alone. Extra and leaking
      cells repeat the row's value, the extra ones are cells that may be masked along and the leaking
      ones are not. */
  lemma {:induction false} RowAfter(p: Policy, rows: seq<Audit>, i: nat)
    requires i < |rows|
    ensures var before, after := rows[i], Close(p, rows)[i];
      && after.draftId == before.draftId && after.reference == before.reference && after.cells == before.cells
      && after.multi == before.multi && after.duplicates == before.duplicates
      && (!before.clean ==> after == before)
      && (after.clean ==> after.code == before.code && after.leaks == before.leaks)
      && (before.clean && !after.clean ==> after.code == "duplicate_value_leak" && after.leaks != {})
      && (before.clean && !after.clean ==> forall o :: o in after.leaks ==> o in before.duplicates && !MayHide(p, o))
      && before.extra <= after.extra
      && forall o :: o in after.extra - before.extra ==> o in before.duplicates && MayHide(p, o)
    decreases |Survivors(rows)|
  {
    hide Covered, Maskable, MayHide;
    forall o { MaskableIs(p, o); }
    PassShrinks(p, rows);
    if Survivors(Pass(p, rows)) != Survivors(rows) { RowAfter(p, Pass(p, rows), i); }
  }

  /** No extra cell of a clean row is a clean row's own cell. */
  ghost predicate ExtrasApart(rows: seq<Audit>) {
    forall i, j, o :: 0 <= i < |rows| && 0 <= j < |rows| && rows[i].clean && rows[j].clean && o in rows[i].extra ==>
      o !in Refs(rows[j].cells)
  }

  lemma PassKeepsApart(p: Policy, rows: seq<Audit>)
    requires ExtrasApart(rows)
    ensures ExtrasApart(Pass(p, rows))
  {
    hide Maskable, Refs;
    var next := Pass(p, rows);
    forall i, j, o | 0 <= i < |next| && 0 <= j < |next| && next[i].clean && next[j].clean && o in next[i].extra
      ensures o !in Refs(next[j].cells)
    {
      assert rows[i].clean && rows[j].clean && next[j].cells == rows[j].cells;
      if o !in rows[i].extra {
        assert o !in Covered(rows);
        assert o !in CellsOf(rows);
      }
    }
  }

  lemma {:induction false} ExtrasStayApart(p: Policy, rows: seq<Audit>)
    requires ExtrasApart(rows)
    ensures ExtrasApart(Close(p, rows))
    decreases |Survivors(rows)|
  {
    hide ExtrasApart, Pass;
    PassShrinks(p, rows);
    PassKeepsApart(p, rows);
    if Survivors(Pass(p, rows)) != Survivors(rows) { ExtrasStayApart(p, Pass(p, rows)); }
  }

  /** Only cells that no clean row stands for are masked as extra cells. */
  lemma ExtrasAreNoCells(p: Policy, rows: seq<Audit>, i: nat, j: nat, c: Cell)
    requires forall k :: 0 <= k < |rows| ==> rows[k].extra == {}
    requires i < |rows| && j < |rows| && c in rows[j].cells
    ensures var after := Close(p, rows);
      after[i].clean && after[j].clean ==> c.sheet + "!" + c.address !in after[i].extra
  {
    hide Close, Maskable;
    ExtrasStayApart(p, rows);
    RowAfter(p, rows, j);
    RefsAre(rows[j].cells, c.sheet + "!" + c.address);
  }
}
