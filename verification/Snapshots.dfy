/** One workbook per cumulative level: what becomes of each cell, and how the workbooks relate to
    each other. */
module Snapshots {
  import opened Options
  import opened Digraphs
  import opened Cutoffs
  import L = CellLevels

  const UNKNOWN := -1

  // ---------- levels by place ----------

  type Place = (string, nat, nat)

  /** Where a node stands on a sheet, if it is a cell with a row and a column. */
  datatype PlacedNode = PlacedNode(id: string, place: Option<Place>)

  function LevelAt(level: map<string, nat>, id: string): (r: nat) { if id in level then level[id] else 0 }

  function PlaceNodes(nodes: seq<PlacedNode>, level: map<string, nat>): (r: map<Place, int>) {
    if nodes == [] then map[]
    else
      var before, n := PlaceNodes(nodes[..|nodes| - 1], level), nodes[|nodes| - 1];
      if n.place.None? then before else before[n.place.value := LevelAt(level, n.id)]
  }

  function Deepest(nodes: seq<PlacedNode>, level: map<string, nat>): (r: nat) {
    if nodes == [] then 0
    else
      var before, n := Deepest(nodes[..|nodes| - 1], level), nodes[|nodes| - 1];
      if n.place.None? || LevelAt(level, n.id) <= before then before else LevelAt(level, n.id)
  }

  /** Formulas without a node have an unknown level. */
  function AddUnparsed(placed: map<Place, int>, formulas: seq<Place>): (r: map<Place, int>) {
    if formulas == [] then placed
    else
      var before, f := AddUnparsed(placed, formulas[..|formulas| - 1]), formulas[|formulas| - 1];
      if f in before then before else before[f := UNKNOWN]
  }

  lemma {:induction false} NodesArePlaced(nodes: seq<PlacedNode>, level: map<string, nat>, p: Place)
    ensures p in PlaceNodes(nodes, level) <==> exists n :: n in nodes && n.place == Some(p)
    ensures p in PlaceNodes(nodes, level) ==> exists n ::
        n in nodes && n.place == Some(p) && PlaceNodes(nodes, level)[p] == if n.id in level then level[n.id] else 0
  {
    if nodes != [] {
      var front, last := nodes[..|nodes| - 1], nodes[|nodes| - 1];
      assert nodes == front + [last];
      NodesArePlaced(front, level, p);
      if last.place == Some(p) { assert last in nodes; }
    }
  }

  lemma {:induction false} DeepestIs(nodes: seq<PlacedNode>, level: map<string, nat>)
    ensures forall n :: n in nodes && n.place.Some? && n.id in level ==> level[n.id] <= Deepest(nodes, level)
    ensures Deepest(nodes, level) == 0
      || exists n :: n in nodes && n.place.Some? && n.id in level && level[n.id] == Deepest(nodes, level)
  {
    if nodes != [] {
      var front, last := nodes[..|nodes| - 1], nodes[|nodes| - 1];
      assert nodes == front + [last];
      DeepestIs(front, level);
    }
  }

  lemma {:induction false} UnparsedOnly(placed: map<Place, int>, formulas: seq<Place>, p: Place)
    ensures var all := AddUnparsed(placed, formulas);
      (p in all <==> p in placed || p in formulas) && (p in placed ==> all[p] == placed[p])
        && (p in all && p !in placed ==> all[p] == UNKNOWN)
  {
    if formulas != [] {
      var front := formulas[..|formulas| - 1];
      assert formulas == front + [formulas[|formulas| - 1]];
      UnparsedOnly(placed, front, p);
    }
  }

  lemma NewlyUnknown(placed: map<Place, int>, formulas: seq<Place>)
    ensures |AddUnparsed(placed, formulas)| - |placed| == |set p | p in formulas && p !in placed|
  {
    hide AddUnparsed;
    var all, new' := AddUnparsed(placed, formulas), set p | p in formulas && p !in placed;
    forall p ensures p in all <==> p in placed.Keys + new' { UnparsedOnly(placed, formulas, p); }
    assert all.Keys == placed.Keys + new';
    assert |all| == |all.Keys| && |placed| == |placed.Keys|;
  }

  lemma LevelsAre(nodes: seq<PlacedNode>, formulas: seq<Place>, level: map<string, nat>)
    ensures var all := AddUnparsed(PlaceNodes(nodes, level), formulas);
      && (forall p :: p in all <==> p in formulas || exists n :: n in nodes && n.place == Some(p))
      && (forall p :: p in PlaceNodes(nodes, level) <==> exists n :: n in nodes && n.place == Some(p))
      && forall p :: p in all ==>
        if exists n :: n in nodes && n.place == Some(p)
        then exists n :: n in nodes && n.place == Some(p) && all[p] == if n.id in level then level[n.id] else 0
        else all[p] == -1
    ensures forall n :: n in nodes && n.place.Some? && n.id in level ==> level[n.id] <= Deepest(nodes, level)
    ensures Deepest(nodes, level) == 0
      || exists n :: n in nodes && n.place.Some? && n.id in level && level[n.id] == Deepest(nodes, level)
    ensures |AddUnparsed(PlaceNodes(nodes, level), formulas)| - |PlaceNodes(nodes, level)|
      == |set p | p in formulas && !(exists n :: n in nodes && n.place == Some(p))|
  {
    hide PlaceNodes, AddUnparsed, Deepest;
    DeepestIs(nodes, level);
    NewlyUnknown(PlaceNodes(nodes, level), formulas);
    forall p { NodesArePlaced(nodes, level, p); }
    forall p { UnparsedOnly(PlaceNodes(nodes, level), formulas, p); }
    assert (set p | p in formulas && p !in PlaceNodes(nodes, level))
      == set p | p in formulas && !(exists n :: n in nodes && n.place == Some(p));
  }

  method PlaceCells(nodes: seq<PlacedNode>, level: map<string, nat>) returns (placed: map<Place, int>, deepest: nat)
    ensures placed == PlaceNodes(nodes, level) && deepest == Deepest(nodes, level)
  {
    placed, deepest := map[], 0;
    var i := 0;
    while i < |nodes|
      invariant 0 <= i <= |nodes|
      invariant placed == PlaceNodes(nodes[..i], level) && deepest == Deepest(nodes[..i], level)
    {
      assert nodes[..i + 1][..i] == nodes[..i];
      if nodes[i].place.Some? {
        var depth := LevelAt(level, nodes[i].id);
        placed := placed[nodes[i].place.value := depth];
        deepest := if depth > deepest then depth else deepest;
      }
      i := i + 1;
    }
    assert nodes[..|nodes|] == nodes;
  }

  method PlaceFormulas(start: map<Place, int>, formulas: seq<Place>) returns (placed: map<Place, int>, unparsed: nat)
    ensures placed == AddUnparsed(start, formulas) && unparsed == |placed| - |start|
  {
    placed, unparsed := start, 0;
    var i := 0;
    while i < |formulas|
      invariant 0 <= i <= |formulas|
      invariant placed == AddUnparsed(start, formulas[..i])
      invariant unparsed == |placed| - |start|
    {
      assert formulas[..i + 1][..i] == formulas[..i];
      if formulas[i] !in placed {
        ghost var was := placed;
        placed := placed[formulas[i] := UNKNOWN];
        assert placed.Keys == was.Keys + {formulas[i]};
        assert |placed| == |placed.Keys| && |was| == |was.Keys|;
        unparsed := unparsed + 1;
      }
      i := i + 1;
    }
    assert formulas[..|formulas|] == formulas;
  }

  /** Every place that has a node or a formula gets a level: its node's, 0 for a node without one, and
      -1 for a formula without a node. The deepest is the greatest of the nodes' levels. */
  method LevelsBySheet(nodes: seq<PlacedNode>, formulas: seq<Place>, level: map<string, nat>)
    returns (placed: map<Place, int>, deepest: nat, unparsed: nat)
    ensures placed == AddUnparsed(PlaceNodes(nodes, level), formulas)
    ensures deepest == Deepest(nodes, level)
    ensures forall p :: p in placed <==> p in formulas || exists n :: n in nodes && n.place == Some(p)
    ensures forall p :: p in placed ==>
      if exists n :: n in nodes && n.place == Some(p)
      then exists n :: n in nodes && n.place == Some(p) && placed[p] == if n.id in level then level[n.id] else 0
      else placed[p] == -1
    ensures forall n :: n in nodes && n.place.Some? && n.id in level ==> level[n.id] <= deepest
    ensures deepest == 0 || exists n :: n in nodes && n.place.Some? && n.id in level && level[n.id] == deepest
    ensures unparsed == |set p | p in formulas && !(exists n :: n in nodes && n.place == Some(p))|
  {
    hide *;
    LevelsAre(nodes, formulas, level);
    placed, deepest := PlaceCells(nodes, level);
    placed, unparsed := PlaceFormulas(placed, formulas);
  }

  lemma {:induction false} PlacedWithin(nodes: seq<PlacedNode>, level: map<string, nat>, p: Place)
    requires p in PlaceNodes(nodes, level)
    ensures 0 <= PlaceNodes(nodes, level)[p] <= Deepest(nodes, level)
  {
    var front, n := nodes[..|nodes| - 1], nodes[|nodes| - 1];
    if p in PlaceNodes(front, level) { PlacedWithin(front, level, p); }
  }

  /** Distinct nodes stand at distinct places. */
  ghost predicate PlacesDistinct(nodes: seq<PlacedNode>) {
    forall i, j :: 0 <= i < j < |nodes| && nodes[i].place.Some? && nodes[j].place.Some? ==>
      nodes[i].place != nodes[j].place
  }

  lemma {:induction false} NodeKeepsLevel(nodes: seq<PlacedNode>, level: map<string, nat>, i: nat)
    requires PlacesDistinct(nodes) && i < |nodes| && nodes[i].place.Some?
    ensures nodes[i].place.value in PlaceNodes(nodes, level)
    ensures PlaceNodes(nodes, level)[nodes[i].place.value] == LevelAt(level, nodes[i].id)
  {
    if i < |nodes| - 1 { NodeKeepsLevel(nodes[..|nodes| - 1], level, i); }
  }

  // ---------- one cell ----------

  datatype Content = Typed(holds: bool) | Formula(value: Option<string>)

  /** A cell element: its reference and style as written, and what it holds. */
  datatype Cell = Cell(ref: Option<(nat, nat)>, style: Option<string>, kind: Option<string>, content: Content)

  datatype Output =
    | Unchanged(cell: Cell)
    | Blank(ref: (nat, nat), style: Option<string>)
    | InlineText(ref: (nat, nat), style: Option<string>, text: string)
    | Cached(ref: (nat, nat), style: Option<string>, kind: Option<string>, text: string)

  datatype Mark = Unmarked | Static | Emptied | Uncalculated | Frozen

  predicate OnlySpace(s: string) { forall c :: c in s ==> c in {' ', '\t', '\n', '\r', 11 as char, 12 as char} }

  function LevelOf(levels: map<(nat, nat), int>,
                   ref: (nat, nat)): (r: int) { if ref in levels then levels[ref] else UNKNOWN }

  predicate Hidden(level: int, cutoff: int, final: bool) {
    (level == UNKNOWN && !final) || (level != UNKNOWN && level > cutoff)
  }

  function Rewrite(c: Cell, levels: map<(nat, nat), int>, cutoff: int, final: bool): (r: (Output, Mark)) {
    if c.content.Typed? then (Unchanged(c), if c.content.holds then Static else Unmarked)
    else if c.ref.None? then (Unchanged(c), Unmarked)
    else
      var ref := c.ref.value;
      if Hidden(LevelOf(levels, ref), cutoff, final) then (Blank(ref, c.style), Emptied)
      else if c.content.value.None? then (Blank(ref, c.style), Uncalculated)
      else if c.kind == Some("str") then (InlineText(ref, c.style, c.content.value.value), Frozen)
      else if OnlySpace(c.content.value.value) then (Blank(ref, c.style), Frozen)
      else (Cached(ref, c.style, c.kind, c.content.value.value), Frozen)
  }

  datatype Totals = Totals(still: nat, emptied: nat, uncalculated: nat, frozen: nat)

  function Add(t: Totals, m: Mark): (r: Totals) {
    match m
    case Unmarked => t
    case Static => t.(still := t.still + 1)
    case Emptied => t.(emptied := t.emptied + 1)
    case Uncalculated => t.(uncalculated := t.uncalculated + 1)
    case Frozen => t.(frozen := t.frozen + 1)
  }

  class Tally {
    var still: nat
    var emptied: nat
    var uncalculated: nat
    var frozen: nat

    function Counts(): (r: Totals)
      reads this
    {
      Totals(still, emptied, uncalculated, frozen)
    }

    constructor ()
      ensures Counts() == Totals(0, 0, 0, 0)
    {
      still, emptied, uncalculated, frozen := 0, 0, 0, 0;
    }

    method Bump(m: Mark)
      modifies this
      ensures Counts() == Add(old(Counts()), m)
    {
      match m
      case Unmarked =>
      case Static => still := still + 1;
      case Emptied => emptied := emptied + 1;
      case Uncalculated => uncalculated := uncalculated + 1;
      case Frozen => frozen := frozen + 1;
    }
  }

  function RewriteAll(cells: seq<Cell>, levels: map<(nat, nat), int>, cutoff: int, final: bool): (s: seq<Output>)
    ensures |s| == |cells|
  {
    seq(|cells|, i requires 0 <= i < |cells| => Rewrite(cells[i], levels, cutoff, final).0)
  }

  function Count(cells: seq<Cell>, levels: map<(nat, nat), int>, cutoff: int, final: bool, t: Totals): (r: Totals) {
    if cells == [] then t
    else Add(Count(cells[..|cells| - 1], levels, cutoff, final, t),
      Rewrite(cells[|cells| - 1], levels, cutoff, final).1)
  }

  /** What a rewritten cell shows whoever opens the workbook: its kind and its text, or nothing. */
  function Shown(o: Output): (r: Option<(Option<string>, string)>)
    requires !o.Unchanged?
  {
    match o
    case Blank(_, _) => None
    case InlineText(_, _, text) => Some((Some("inlineStr"), text))
    case Cached(_, _, kind, text) => Some((kind, text))
  }

  lemma OnlySpaceIs(s: string)
    ensures OnlySpace(s) <==> forall i :: 0 <= i < |s| ==> s[i] in {' ', '\t', '\n', '\r', 11 as char, 12 as char}
  {
    if OnlySpace(s) {
      forall i | 0 <= i < |s| ensures s[i] in {' ', '\t', '\n', '\r', 11 as char, 12 as char} {
        assert s[i] in s;
      }
    }
  }

  /** A typed cell, or one without a reference, is the cell itself. A formula stays where it is in its
      style. It shows its stored value if its level is at most the cutoff, or is unknown and the
      snapshot is the complete one: a text as inline text, a value of white space alone as nothing,
      and any other as it is in its kind. Otherwise, and without a stored value, it shows nothing. */
  lemma CellShows(c: Cell, levels: map<(nat, nat), int>, cutoff: int, final: bool)
    ensures var o := Rewrite(c, levels, cutoff, final).0;
      if c.content.Typed? || c.ref.None? then o == Unchanged(c)
      else
        && !o.Unchanged? && o.ref == c.ref.value && o.style == c.style
        && var level, value := if o.ref in levels then levels[o.ref] else -1, c.content.value;
          Shown(o) ==
            if (if level == -1 then !final else level > cutoff) || value.None? then None
            else if c.kind == Some("str") then Some((Some("inlineStr"), value.value))
            else if forall i :: 0 <= i < |value.value| ==>
                value.value[i] in {' ', '\t', '\n', '\r', 11 as char, 12 as char}
              then None
            else Some((c.kind, value.value))
  {
    if c.content.Formula? && c.content.value.Some? { OnlySpaceIs(c.content.value.value); }
    hide OnlySpace;
  }

  /** How it is counted: a typed cell that holds something as static, and a formula as emptied when it
      is hidden at this cutoff, else as uncalculated or frozen by whether it has a stored value. */
  lemma CellIsCounted(c: Cell, levels: map<(nat, nat), int>, cutoff: int, final: bool)
    ensures Rewrite(c, levels, cutoff, final).1 ==
      if c.content.Typed? then (if c.content.holds then Static else Unmarked)
      else if c.ref.None? then Unmarked
      else
        var level := if c.ref.value in levels then levels[c.ref.value] else -1;
        if if level == -1 then !final else level > cutoff then Emptied
        else if c.content.value.None? then Uncalculated else Frozen
  {
    hide OnlySpace;
  }

  /** The cells that get this mark. */
  function Marked(cells: seq<Cell>, levels: map<(nat, nat), int>, cutoff: int, final: bool, m: Mark): (r: set<nat>) {
    set i: nat | i < |cells| && Rewrite(cells[i], levels, cutoff, final).1 == m
  }

  lemma NoneMarked(levels: map<(nat, nat), int>, cutoff: int, final: bool, m: Mark)
    ensures |Marked([], levels, cutoff, final, m)| == 0
  {
    hide Rewrite;
    assert Marked([], levels, cutoff, final, m) == {};
  }

  lemma OneMoreMarked(front: seq<Cell>, last: Cell, levels: map<(nat, nat), int>, cutoff: int, final: bool, m: Mark)
    ensures |Marked(front + [last], levels, cutoff, final, m)|
      == |Marked(front, levels, cutoff, final, m)| + if Rewrite(last, levels, cutoff, final).1 == m then 1 else 0
  {
    hide Rewrite;
    var cells := front + [last];
    var before := Marked(front, levels, cutoff, final, m);
    var more: set<nat> := if Rewrite(last, levels, cutoff, final).1 == m then {|front|} else {};
    forall i: nat ensures i in Marked(cells, levels, cutoff, final, m) <==> i in before || i in more {
      if i < |front| { assert cells[i] == front[i]; }
    }
    assert Marked(cells, levels, cutoff, final, m) == before + more;
  }

  /** Each total grows by as many cells as were so counted. */
  lemma {:induction false} TotalsCount(cells: seq<Cell>, levels: map<(nat, nat), int>, cutoff: int, final: bool,
                                       t: Totals)
    ensures var after := Count(cells, levels, cutoff, final, t);
      && after.still == t.still + |Marked(cells, levels, cutoff, final, Static)|
      && after.emptied == t.emptied + |Marked(cells, levels, cutoff, final, Emptied)|
      && after.uncalculated == t.uncalculated + |Marked(cells, levels, cutoff, final, Uncalculated)|
      && after.frozen == t.frozen + |Marked(cells, levels, cutoff, final, Frozen)|
  {
    hide Rewrite, Marked;
    if cells == [] {
      forall m: Mark { NoneMarked(levels, cutoff, final, m); }
    } else {
      var front, last := cells[..|cells| - 1], cells[|cells| - 1];
      assert cells == front + [last];
      TotalsCount(front, levels, cutoff, final, t);
      forall m: Mark { OneMoreMarked(front, last, levels, cutoff, final, m); }
    }
  }

  method RewriteSheet(cells: seq<Cell>, levels: map<(nat, nat), int>, cutoff: int, tally: Tally, final: bool)
    returns (out: seq<Output>)
    modifies tally
    ensures out == RewriteAll(cells, levels, cutoff, final)
    ensures tally.Counts() == Count(cells, levels, cutoff, final, old(tally.Counts()))
    ensures |out| == |cells| && forall i :: 0 <= i < |cells| ==>
      if cells[i].content.Typed? || cells[i].ref.None? then out[i] == Unchanged(cells[i])
      else
        && !out[i].Unchanged? && out[i].ref == cells[i].ref.value && out[i].style == cells[i].style
        && var level, value := if out[i].ref in levels then levels[out[i].ref] else -1, cells[i].content.value;
          Shown(out[i]) ==
            if (if level == -1 then !final else level > cutoff) || value.None? then None
            else if cells[i].kind == Some("str") then Some((Some("inlineStr"), value.value))
            else if OnlySpace(value.value) then None
            else Some((cells[i].kind, value.value))
  {
    out := [];
    var i := 0;
    while i < |cells|
      invariant 0 <= i <= |cells|
      invariant out == RewriteAll(cells[..i], levels, cutoff, final)
      invariant tally.Counts() == Count(cells[..i], levels, cutoff, final, old(tally.Counts()))
    {
      hide Rewrite;
      assert cells[..i + 1][..i] == cells[..i];
      var (cell, mark) := Rewrite(cells[i], levels, cutoff, final);
      tally.Bump(mark);
      out := out + [cell];
      i := i + 1;
    }
    assert cells[..|cells|] == cells;
    hide Rewrite, OnlySpace, Count;
    forall k | 0 <= k < |cells| { CellShows(cells[k], levels, cutoff, final); }
    forall k | 0 <= k < |cells| && cells[k].content.Formula? && cells[k].content.value.Some? {
      OnlySpaceIs(cells[k].content.value.value);
    }
  }

  // ---------- the family of snapshots ----------

  predicate IsFormula(c: Cell) { c.content.Formula? && c.ref.Some? }

  predicate IsEmptied(c: Cell, levels: map<(nat, nat), int>, cutoff: int, final: bool) {
    Rewrite(c, levels, cutoff, final).1 == Emptied
  }

  /** A cell that shows something at one cutoff shows the same at every later one. */
  lemma SnapshotsNest(c: Cell, levels: map<(nat, nat), int>, cutoff: int, final: bool, later: int, finalLater: bool)
    requires cutoff <= later && (final ==> finalLater) && !IsEmptied(c, levels, cutoff, final)
    ensures Rewrite(c, levels, later, finalLater) == Rewrite(c, levels, cutoff, final)
  {
    hide OnlySpace;
  }

  /** Every formula cell is emptied, uncalculated or frozen, and the typed cells are the same in
      every snapshot; the cells emptied at a later cutoff are among those emptied at an earlier. */
  lemma {:induction false} TalliesAgree(cells: seq<Cell>, levels: map<(nat, nat), int>, cutoff: int, final: bool,
                                        later: int, finalLater: bool, t: Totals)
    requires cutoff <= later && (final ==> finalLater)
    ensures var a, b := Count(cells, levels, cutoff, final, t), Count(cells, levels, later, finalLater, t);
      && a.still == b.still
      && a.emptied + a.uncalculated + a.frozen == b.emptied + b.uncalculated + b.frozen
      && a.emptied >= b.emptied && a.frozen <= b.frozen && a.uncalculated <= b.uncalculated
  {
    if cells != [] {
      CellIsCounted(cells[|cells| - 1], levels, cutoff, final);
      CellIsCounted(cells[|cells| - 1], levels, later, finalLater);
      hide Rewrite;
      TalliesAgree(cells[..|cells| - 1], levels, cutoff, final, later, finalLater, t);
    }
  }

  ghost predicate Shallow(levels: map<(nat, nat), int>, deepest: nat) {
    forall r :: r in levels ==> levels[r] <= deepest
  }

  /** The complete snapshot empties no cell. */
  lemma {:induction false} FinalEmptiesNothing(cells: seq<Cell>, levels: map<(nat, nat), int>, deepest: nat, t: Totals)
    requires Shallow(levels, deepest)
    ensures Count(cells, levels, deepest, true, t).emptied == t.emptied
    ensures forall c :: c in cells ==> !IsEmptied(c, levels, deepest, true)
  {
    if cells != [] {
      var front, last := cells[..|cells| - 1], cells[|cells| - 1];
      assert cells == front + [last];
      FinalEmptiesNothing(front, levels, deepest, t);
    }
  }

  /** The levels of one sheet. */
  function OnSheet(placed: map<Place, int>, sheet: string): (r: map<(nat, nat), int>) {
    map p | p in placed && p.0 == sheet :: (p.1, p.2) := placed[p]
  }

  lemma PlacesAreShallow(nodes: seq<PlacedNode>, formulas: seq<Place>, level: map<string, nat>, sheet: string)
    ensures var levels := OnSheet(AddUnparsed(PlaceNodes(nodes, level), formulas), sheet);
      Shallow(levels, Deepest(nodes, level))
  {
    hide PlaceNodes, AddUnparsed, Deepest;
    var placed := PlaceNodes(nodes, level);
    var all := AddUnparsed(placed, formulas);
    forall p | p in all ensures all[p] <= Deepest(nodes, level) {
      UnparsedOnly(placed, formulas, p);
      if p in placed { PlacedWithin(nodes, level, p); }
    }
  }

  /** The whole family: for every cap that is not negative, the snapshots at the listed cutoffs grow
      from each to the next, and the last one empties no cell. */
  lemma FamilyGrowsToComplete(nodes: seq<PlacedNode>, formulas: seq<Place>, level: map<string, nat>, sheet: string,
                              stride: int, cap: int, i: nat, j: nat, c: Cell)
    requires cap >= 0
    requires var cutoffs := CutoffList(Deepest(nodes, level), stride, cap); i <= j < |cutoffs|
    ensures var deepest := Deepest(nodes, level);
      var cutoffs := CutoffList(deepest, stride, cap);
      var levels := OnSheet(AddUnparsed(PlaceNodes(nodes, level), formulas), sheet);
      && (IsEmptied(c, levels, cutoffs[i], cutoffs[i] == deepest)
          || Rewrite(c, levels, cutoffs[j], cutoffs[j] == deepest)
            == Rewrite(c, levels, cutoffs[i], cutoffs[i] == deepest))
      && (j == |cutoffs| - 1 ==> !IsEmptied(c, levels, cutoffs[j], cutoffs[j] == deepest))
  {
    hide PlaceNodes, AddUnparsed, Deepest, CutoffList, Rewrite, OnSheet;
    var deepest := Deepest(nodes, level);
    var cutoffs := CutoffList(deepest, stride, cap);
    var levels := OnSheet(AddUnparsed(PlaceNodes(nodes, level), formulas), sheet);
    CutoffsAreRight(deepest, stride, cap);
    PlacesAreShallow(nodes, formulas, level, sheet);
    if !IsEmptied(c, levels, cutoffs[i], cutoffs[i] == deepest) {
      SnapshotsNest(c, levels, cutoffs[i], cutoffs[i] == deepest, cutoffs[j], cutoffs[j] == deepest);
    }
    if j == |cutoffs| - 1 {
      FinalEmptiesNothing([c], levels, deepest, Totals(0, 0, 0, 0));
    }
  }

  // ---------- precedents ----------

  lemma CycleCarries(links: L.Links, u: string, v: string)
    requires L.BehindCycle(links, u) && Reaches(links, u, v)
    ensures L.BehindCycle(links, v)
  {
    hide Reaches, OnCycle;
    var x :| OnCycle(links, x) && Reaches(links, x, u);
    ReachesTransitive(links, x, u, v);
  }

  lemma WalkOf(links: L.Links, u: string, v: string) returns (p: seq<string>)
    requires Reaches(links, u, v)
    ensures IsWalk(links, p) && p[0] == u && p[|p| - 1] == v
  {
    p :| WalkFromTo(links, p, u, v);
  }

  lemma JoinWalks(links: L.Links, w: seq<string>, p: seq<string>) returns (r: seq<string>)
    requires IsWalk(links, w) && IsWalk(links, p) && w[|w| - 1] == p[0]
    ensures IsWalk(links, r) && r[|r| - 1] == p[|p| - 1] && |r| == |w| + |p| - 1
  {
    r := w + p[1..];
    forall i | 0 <= i < |r| - 1 ensures (r[i], r[i + 1]) in links {
      if i >= |w| - 1 {
        assert (p[i - |w| + 1], p[i - |w| + 2]) in links;
      } else {
        assert (w[i], w[i + 1]) in links;
      }
    }
  }

  lemma {:induction false} LongerWalk(links: L.Links, places: set<string>, level: map<string, nat>, cyclic: set<string>,
                                      u: string, v: string)
    requires L.LevelsAreRight(links, places, level, cyclic) && u in places && v in places && v !in cyclic
    requires Reaches(links, u, v)
    ensures u !in cyclic && level[u] <= level[v] && (u != v ==> level[u] < level[v])
  {
    hide Reaches, OnCycle;
    if u in cyclic {
      CycleCarries(links, u, v);
    }
    assert L.LongestInto(links, u, level[u]) && L.LongestInto(links, v, level[v]);
    var w :| IsWalk(links, w) && w[|w| - 1] == u && |w| == level[u] + 1;
    var p := WalkOf(links, u, v);
    var joined := JoinWalks(links, w, p);
    if u != v { assert |p| > 1; }
  }

  lemma LevelsOver(links: L.Links, places: set<string>, level: map<string, nat>, cyclic: set<string>)
    requires L.LevelsAreRight(links, places, level, cyclic)
    ensures level.Keys == places
  {
  }

  lemma PlacedLevel(nodes: seq<PlacedNode>, formulas: seq<Place>, level: map<string, nat>, i: nat)
    requires PlacesDistinct(nodes) && i < |nodes| && nodes[i].place.Some?
    ensures var p := nodes[i].place.value;
      LevelOf(OnSheet(AddUnparsed(PlaceNodes(nodes, level), formulas), p.0), (p.1, p.2)) == LevelAt(level, nodes[i].id)
  {
    hide PlaceNodes, AddUnparsed, PlacesDistinct;
    var p := nodes[i].place.value;
    NodeKeepsLevel(nodes, level, i);
    UnparsedOnly(PlaceNodes(nodes, level), formulas, p);
    assert p == (p.0, p.1, p.2);
  }

  /** A snapshot is closed under precedents wherever no circular reference is involved: when a cell
      is not emptied, no cell it depends on, however indirectly, is. */
  lemma SnapshotHoldsPrecedents(links: L.Links, places: set<string>, level: map<string, nat>, cyclic: set<string>,
                                nodes: seq<PlacedNode>, formulas: seq<Place>, i: nat, j: nat, c: Cell, d: Cell,
                                  cutoff: int, final: bool)
    requires L.LevelsAreRight(links, places, level, cyclic) && PlacesDistinct(nodes)
    requires i < |nodes| && j < |nodes| && nodes[i].place.Some? && nodes[j].place.Some?
    requires nodes[i].id in places && nodes[j].id in places && nodes[j].id !in cyclic
    requires Reaches(links, nodes[i].id, nodes[j].id)
    requires IsFormula(c) && c.ref.value == (nodes[i].place.value.1, nodes[i].place.value.2)
    requires IsFormula(d) && d.ref.value == (nodes[j].place.value.1, nodes[j].place.value.2)
    requires var all := AddUnparsed(PlaceNodes(nodes, level), formulas);
      !IsEmptied(d, OnSheet(all, nodes[j].place.value.0), cutoff, final)
    ensures var all := AddUnparsed(PlaceNodes(nodes, level), formulas);
      !IsEmptied(c, OnSheet(all, nodes[i].place.value.0), cutoff, final)
  {
    hide PlaceNodes, AddUnparsed, Reaches, L.LevelsAreRight, PlacesDistinct, OnlySpace;
    LongerWalk(links, places, level, cyclic, nodes[i].id, nodes[j].id);
    LevelsOver(links, places, level, cyclic);
    PlacedLevel(nodes, formulas, level, i);
    PlacedLevel(nodes, formulas, level, j);
  }
}
