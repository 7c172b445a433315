/** Panels packed from the top left: each drops into the lowest gap of the skyline that is wide
    enough, and no two of them overlap. */
module SkylinePacking {

  datatype Segment = Segment(x: real, w: real, y: real)

  datatype Panel = Panel(x: real, y: real, w: real, h: real)

  // ---------- the skyline as a profile ----------

  /** Segments of positive width, each starting where the one before it ends. */
  ghost predicate Chain(sky: seq<Segment>, a: real) {
    sky == [] || (sky[0].x == a && sky[0].w > 0.0 && sky[0].y >= 0.0 && Chain(sky[1..], a + sky[0].w))
  }

  function Width(sky: seq<Segment>): (r: real) { if sky == [] then 0.0 else sky[0].w + Width(sky[1..]) }

  /** The height of the profile at p; nothing stands beyond its right end. */
  function Height(sky: seq<Segment>, p: real): (r: real) {
    if sky == [] then 0.0 else if p < sky[0].x + sky[0].w then sky[0].y else Height(sky[1..], p)
  }

  lemma {:induction false} ChainConcat(a: seq<Segment>, b: seq<Segment>, at: real)
    ensures Chain(a + b, at) <==> Chain(a, at) && Chain(b, at + Width(a))
    ensures Width(a + b) == Width(a) + Width(b)
  {
    if a == [] {
      assert a + b == b;
    } else {
      assert (a + b)[1..] == a[1..] + b;
      ChainConcat(a[1..], b, at + a[0].w);
    }
  }

  lemma {:induction false} WidthPositive(sky: seq<Segment>, at: real)
    requires Chain(sky, at)
    ensures Width(sky) >= 0.0 && (sky != [] ==> Width(sky) > 0.0)
  {
    if sky != [] { WidthPositive(sky[1..], at + sky[0].w); }
  }

  lemma {:induction false} HeightConcat(a: seq<Segment>, b: seq<Segment>, at: real, p: real)
    requires Chain(a, at)
    ensures Height(a + b, p) == if a != [] && p < at + Width(a) then Height(a, p) else Height(b, p)
  {
    if a == [] {
      assert a + b == b;
    } else {
      assert (a + b)[1..] == a[1..] + b;
      HeightConcat(a[1..], b, at + a[0].w, p);
      WidthPositive(a[1..], at + a[0].w);
    }
  }

  lemma {:induction false} HeightBeyond(sky: seq<Segment>, at: real, p: real)
    requires Chain(sky, at)
    ensures Height(sky, p) >= 0.0 && (p >= at + Width(sky) ==> Height(sky, p) == 0.0)
  {
    if sky != [] {
      WidthPositive(sky[1..], at + sky[0].w);
      HeightBeyond(sky[1..], at + sky[0].w, p);
    }
  }

  // ---------- the lowest gap ----------

  function Max(a: real, b: real): (r: real) { if b > a then b else a }

  /** The top of the segments a panel of this width would stand over, starting at the first. */
  function Top(sky: seq<Segment>, need: real): (r: real) {
    if sky == [] || need <= 0.0 then 0.0 else Max(sky[0].y, Top(sky[1..], need - sky[0].w))
  }

  function Highest(sky: seq<Segment>): (r: real) { if sky == [] then 0.0 else Max(sky[0].y, Highest(sky[1..])) }

  predicate Room(sky: seq<Segment>, s: nat, need: real)
    requires s <= |sky|
  {
    Width(sky[s..]) >= need
  }

  /** The leftmost of the lowest places with room. */
  ghost predicate LowestAt(sky: seq<Segment>, need: real, s: nat) {
    && s < |sky| && Room(sky, s, need)
    && forall o: nat :: o < |sky| && Room(sky, o, need) ==>
      if o < s then Top(sky[s..], need) < Top(sky[o..], need) else Top(sky[s..], need) <= Top(sky[o..], need)
  }

  /** The best of the first n places. */
  ghost predicate BestOf(sky: seq<Segment>, need: real, n: nat, s: nat)
    requires n <= |sky|
  {
    && s < n && Room(sky, s, need)
    && forall o: nat :: o < n ==>
      if o < s then Top(sky[s..], need) < Top(sky[o..], need) else Top(sky[s..], need) <= Top(sky[o..], need)
  }

  ghost predicate IsLowestGap(sky: seq<Segment>, need: real, x: real, y: real) {
    if Width(sky) >= need then exists s: nat :: LowestAt(sky, need, s) && x == sky[s].x && y == Top(sky[s..], need)
    else x == 0.0 && y == Highest(sky)
  }

  lemma {:induction false} TopNonNegative(sky: seq<Segment>, need: real)
    ensures Top(sky, need) >= 0.0
  {
    if sky != [] && need > 0.0 { TopNonNegative(sky[1..], need - sky[0].w); }
  }

  /** A panel standing there is above everything below it. */
  lemma {:induction false} TopIsAbove(sky: seq<Segment>, at: real, need: real, p: real)
    requires Chain(sky, at) && at <= p < at + need
    ensures Height(sky, p) <= Top(sky, need)
  {
    if sky != [] {
      if p >= at + sky[0].w { TopIsAbove(sky[1..], at + sky[0].w, need - sky[0].w, p); }
    }
  }

  lemma {:induction false} HighestIsAbove(sky: seq<Segment>, p: real)
    ensures Height(sky, p) <= Highest(sky) && Highest(sky) >= 0.0
  {
    if sky != [] { HighestIsAbove(sky[1..], p); }
  }

  lemma {:induction false} HeightFrom(sky: seq<Segment>, at: real, s: nat, p: real)
    requires Chain(sky, at) && s < |sky| && p >= sky[s].x
    ensures Height(sky, p) == Height(sky[s..], p) && Chain(sky[s..], sky[s].x) && sky[s].x >= at
    ensures sky[s].x + Width(sky[s..]) == at + Width(sky)
  {
    if s == 0 {
      assert sky[0..] == sky;
    } else {
      assert sky[1..][s - 1..] == sky[s..];
      HeightFrom(sky[1..], at + sky[0].w, s - 1, p);
    }
  }

  lemma {:induction false} ChainFrom(sky: seq<Segment>, at: real, s: nat)
    requires Chain(sky, at) && s < |sky|
    ensures Chain(sky[s..], sky[s].x)
  {
    if s == 0 {
      assert sky[0..] == sky;
    } else {
      assert sky[1..][s - 1..] == sky[s..];
      ChainFrom(sky[1..], at + sky[0].w, s - 1);
    }
  }

  lemma {:induction false} RoomShrinks(sky: seq<Segment>, at: real, s: nat, o: nat, need: real)
    requires Chain(sky, at) && s <= o <= |sky| && !Room(sky, s, need)
    ensures !Room(sky, o, need)
    decreases o - s
  {
    if s < o {
      ChainFrom(sky, at, s);
      assert sky[s..][1..] == sky[s + 1..];
      RoomShrinks(sky, at, s + 1, o, need);
    }
  }

  /** Where a gap of this width is found, the profile under the panel is at most its top edge. */
  lemma GapFits(sky: seq<Segment>, need: real, x: real, y: real, p: real)
    requires Chain(sky, 0.0) && IsLowestGap(sky, need, x, y) && x <= p < x + need
    ensures Height(sky, p) <= y && x >= 0.0 && y >= 0.0
  {
    if Width(sky) >= need {
      var s: nat :| LowestAt(sky, need, s) && x == sky[s].x && y == Top(sky[s..], need);
      HeightFrom(sky, 0.0, s, p);
      TopIsAbove(sky[s..], sky[s].x, need, p);
      TopNonNegative(sky[s..], need);
    } else {
      HighestIsAbove(sky, p);
    }
  }

  // ---------- claiming the place ----------

  /** What stays of the segments left of x. */
  function LeftOf(sky: seq<Segment>, x: real): (r: seq<Segment>) {
    if sky == [] || sky[0].x >= x then []
    else if sky[0].x + sky[0].w <= x then [sky[0]] + LeftOf(sky[1..], x)
    else [Segment(sky[0].x, x - sky[0].x, sky[0].y)]
  }

  /** What stays of the segments right of edge. */
  function RightOf(sky: seq<Segment>, edge: real): (r: seq<Segment>) {
    if sky == [] then []
    else if sky[0].x >= edge then sky
    else if sky[0].x + sky[0].w <= edge then RightOf(sky[1..], edge)
    else [Segment(edge, sky[0].x + sky[0].w - edge, sky[0].y)] + sky[1..]
  }

  function Carve(seg: Segment, x: real, edge: real): (r: seq<Segment>) {
    var left := Max(seg.x, x);
    var right := if edge < seg.x + seg.w then edge else seg.x + seg.w;
    var before := if seg.x < x then [Segment(seg.x, x - seg.x, seg.y)] else [];
    var after := if seg.x + seg.w > edge then [Segment(edge, seg.x + seg.w - edge, seg.y)] else [];
    if right <= left then [seg] else before + after
  }

  function CarveAll(sky: seq<Segment>, x: real, edge: real): (r: seq<Segment>) {
    if sky == [] then [] else Carve(sky[0], x, edge) + CarveAll(sky[1..], x, edge)
  }

  lemma {:induction false} CarveSplits(sky: seq<Segment>, at: real, x: real, edge: real)
    requires Chain(sky, at) && x < edge
    ensures CarveAll(sky, x, edge) == LeftOf(sky, x) + RightOf(sky, edge)
  {
    if sky != [] {
      var rest, next := sky[1..], at + sky[0].w;
      CarveSplits(rest, next, x, edge);
      if next >= x { assert LeftOf(rest, x) == []; }
      if next >= edge { assert RightOf(rest, edge) == rest; }
      if at >= edge { assert RightOf(sky, edge) == sky && sky == [sky[0]] + rest; }
    }
  }

  lemma {:induction false} LeftIs(sky: seq<Segment>, at: real, x: real)
    requires Chain(sky, at) && x <= at + Width(sky)
    ensures Chain(LeftOf(sky, x), at) && Width(LeftOf(sky, x)) == (if at < x then x - at else 0.0)
    ensures forall p :: at <= p < x ==> Height(LeftOf(sky, x), p) == Height(sky, p)
    ensures forall i :: 0 <= i < |LeftOf(sky, x)| ==> LeftOf(sky, x)[i].x < x
  {
    if sky != [] && at < x && at + sky[0].w <= x {
      LeftIs(sky[1..], at + sky[0].w, x);
      var left := LeftOf(sky, x);
      assert left[1..] == LeftOf(sky[1..], x);
      forall p | at <= p < x ensures Height(left, p) == Height(sky, p) {
        if p >= at + sky[0].w { assert Height(LeftOf(sky[1..], x), p) == Height(sky[1..], p); }
      }
    }
  }

  lemma {:induction false} ChainStarts(sky: seq<Segment>, at: real)
    requires Chain(sky, at)
    ensures forall i :: 0 <= i < |sky| ==> sky[i].x >= at
  {
    if sky != [] {
      ChainStarts(sky[1..], at + sky[0].w);
      forall i | 0 <= i < |sky| ensures sky[i].x >= at {
        if i > 0 { assert sky[i] == sky[1..][i - 1]; }
      }
    }
  }

  lemma {:induction false} RightIs(sky: seq<Segment>, at: real, edge: real)
    requires Chain(sky, at) && at <= edge
    ensures Chain(RightOf(sky, edge), edge)
    ensures forall p :: p >= edge ==> Height(RightOf(sky, edge), p) == Height(sky, p)
    ensures forall i :: 0 <= i < |RightOf(sky, edge)| ==> RightOf(sky, edge)[i].x >= edge
  {
    if sky != [] {
      var right := RightOf(sky, edge);
      if at + sky[0].w <= edge {
        RightIs(sky[1..], at + sky[0].w, edge);
        forall p | p >= edge ensures Height(right, p) == Height(sky, p) {
          assert Height(right, p) == Height(sky[1..], p);
        }
      } else {
        ChainStarts(sky[1..], at + sky[0].w);
        if at < edge { assert right[1..] == sky[1..]; }
        forall i | 0 <= i < |right| ensures right[i].x >= edge {
          if at == edge { assert i > 0 ==> right[i] == sky[1..][i - 1]; }
        }
      }
    }
  }

  /** Stable insertion by left edge; sorting inserts from the front. */
  function InsertByX(seg: Segment, sky: seq<Segment>): (r: seq<Segment>) {
    if sky == [] then [seg]
    else if seg.x < sky[|sky| - 1].x then InsertByX(seg, sky[..|sky| - 1]) + [sky[|sky| - 1]]
    else sky + [seg]
  }

  function SortByX(sky: seq<Segment>): (r: seq<Segment>) {
    if sky == [] then [] else InsertByX(sky[|sky| - 1], SortByX(sky[..|sky| - 1]))
  }

  ghost predicate SortedByX(sky: seq<Segment>) { forall i, j :: 0 <= i < j < |sky| ==> sky[i].x <= sky[j].x }

  lemma {:induction false} SortOfSorted(sky: seq<Segment>)
    requires SortedByX(sky)
    ensures SortByX(sky) == sky
  {
    if sky != [] {
      SortOfSorted(sky[..|sky| - 1]);
      assert sky == sky[..|sky| - 1] + [sky[|sky| - 1]];
    }
  }

  lemma {:induction false} InsertBetween(left: seq<Segment>, seg: Segment, right: seq<Segment>)
    requires forall i :: 0 <= i < |left| ==> left[i].x <= seg.x
    requires forall i :: 0 <= i < |right| ==> seg.x < right[i].x
    ensures InsertByX(seg, left + right) == left + [seg] + right
  {
    if right == [] {
      assert left + right == left;
    } else {
      var front, last := right[..|right| - 1], right[|right| - 1];
      assert right == front + [last];
      assert (left + right)[..|left + right| - 1] == left + front;
      InsertBetween(left, seg, front);
      assert left + [seg] + right == left + [seg] + front + [last];
    }
  }

  function Push(done: seq<Segment>, seg: Segment): (r: seq<Segment>) {
    if done != [] && done[|done| - 1].y == seg.y && done[|done| - 1].x + done[|done| - 1].w == seg.x then
      done[..|done| - 1] + [done[|done| - 1].(w := done[|done| - 1].w + seg.w)]
    else done + [seg]
  }

  /** Neighbours at the same height become one segment. */
  function Merge(done: seq<Segment>, rest: seq<Segment>): (r: seq<Segment>)
    decreases |rest|
  {
    if rest == [] then done else Merge(Push(done, rest[0]), rest[1..])
  }

  lemma PushIs(done: seq<Segment>, seg: Segment, at: real)
    requires Chain(done + [seg], at)
    ensures Chain(Push(done, seg), at) && Width(Push(done, seg)) == Width(done + [seg])
    ensures forall p :: Height(Push(done, seg), p) == Height(done + [seg], p)
  {
    if done != [] {
      var front, last := done[..|done| - 1], done[|done| - 1];
      assert done == front + [last];
      if last.y == seg.y && last.x + last.w == seg.x {
        var wide := last.(w := last.w + seg.w);
        assert done + [seg] == front + [last, seg];
        ChainConcat(front, [last, seg], at);
        ChainConcat(front, [wide], at);
        assert [last, seg][1..] == [seg] && [seg][1..] == [];
        assert [wide][1..] == [];
        forall p ensures Height(front + [wide], p) == Height(done + [seg], p) {
          HeightConcat(front, [wide], at, p);
          HeightConcat(front, [last, seg], at, p);
        }
      }
    }
  }

  lemma PushNonEmpty(done: seq<Segment>, seg: Segment)
    ensures Push(done, seg) != []
  {
  }

  lemma {:induction false} MergeIs(done: seq<Segment>, rest: seq<Segment>, at: real)
    requires Chain(done + rest, at)
    ensures Chain(Merge(done, rest), at) && Width(Merge(done, rest)) == Width(done + rest)
    ensures forall p :: Height(Merge(done, rest), p) == Height(done + rest, p)
    decreases |rest|
  {
    if rest == [] {
      assert done + rest == done;
    } else {
      hide Push;
      var one, tail := done + [rest[0]], rest[1..];
      assert done + rest == one + tail;
      ChainConcat(one, tail, at);
      PushIs(done, rest[0], at);
      var pushed := Push(done, rest[0]);
      ChainConcat(pushed, tail, at);
      MergeIs(pushed, tail, at);
      WidthPositive(one, at);
      WidthPositive(pushed, at);
      assert one != [] by { assert |one| > 0; }
      assert pushed != [] by { PushNonEmpty(done, rest[0]); }
      forall p ensures Height(pushed + tail, p) == Height(one + tail, p) {
        HeightConcat(pushed, tail, at, p);
        HeightConcat(one, tail, at, p);
      }
    }
  }

  /** No two neighbours of the profile have the same height. */
  ghost predicate Short(sky: seq<Segment>) { forall i :: 0 <= i < |sky| - 1 ==> sky[i].y != sky[i + 1].y }

  lemma {:induction false} ChainNeighbours(sky: seq<Segment>, at: real, i: nat)
    requires Chain(sky, at) && i + 1 < |sky|
    ensures sky[i].x + sky[i].w == sky[i + 1].x
  {
    if i > 0 { ChainNeighbours(sky[1..], at + sky[0].w, i - 1); }
  }

  lemma {:induction false} MergeIsShort(done: seq<Segment>, rest: seq<Segment>, at: real)
    requires Chain(done + rest, at) && Short(done)
    ensures Short(Merge(done, rest))
    decreases |rest|
  {
    if rest != [] {
      var one, tail := done + [rest[0]], rest[1..];
      assert done + rest == one + tail;
      ChainConcat(one, tail, at);
      PushIs(done, rest[0], at);
      ChainConcat(Push(done, rest[0]), tail, at);
      if done != [] { ChainNeighbours(one, at, |done| - 1); }
      MergeIsShort(Push(done, rest[0]), tail, at);
    }
  }

  function Claimed(sky: seq<Segment>, x: real, y: real, w: real, h: real): (r: seq<Segment>) {
    Merge([], SortByX(CarveAll(sky, x, x + w) + [Segment(x, w, y + h)]))
  }

  lemma NotEmpty(merged: seq<Segment>, next: seq<Segment>, x: real)
    requires Chain(next, 0.0) && next != [] && Width(merged) == Width(next)
    ensures merged != []
  {
    WidthPositive(next, 0.0);
  }

  lemma {:induction false} ChainSorted(sky: seq<Segment>, at: real)
    requires Chain(sky, at)
    ensures SortedByX(sky)
  {
    if sky != [] {
      ChainSorted(sky[1..], at + sky[0].w);
      ChainStarts(sky[1..], at + sky[0].w);
      forall i, j | 0 <= i < j < |sky| ensures sky[i].x <= sky[j].x {
        assert sky[j] == sky[1..][j - 1];
        if i > 0 { assert sky[i] == sky[1..][i - 1]; }
      }
    }
  }

  lemma Sorted(left: seq<Segment>, seg: Segment, right: seq<Segment>, x: real, edge: real)
    requires seg.x == x < edge && Chain(left, 0.0) && Chain(right, edge)
    requires forall i :: 0 <= i < |left| ==> left[i].x < x
    requires forall i :: 0 <= i < |right| ==> right[i].x >= edge
    ensures SortByX(left + right + [seg]) == left + [seg] + right
  {
    hide InsertByX, Chain;
    var both := left + right;
    ChainSorted(left, 0.0);
    ChainSorted(right, edge);
    assert SortedByX(both);
    SortOfSorted(both);
    assert (both + [seg])[..|both + [seg]| - 1] == both;
    InsertBetween(left, seg, right);
  }

  lemma JoinedIs(sky: seq<Segment>, left: seq<Segment>, seg: Segment, right: seq<Segment>, x: real, edge: real)
    requires Chain(sky, 0.0) && Chain(left, 0.0) && Chain(right, edge) && 0.0 <= x < edge && Width(left) == x
    requires seg.x == x && seg.w == edge - x && seg.y >= 0.0
    requires forall p :: 0.0 <= p < x ==> Height(left, p) == Height(sky, p)
    requires forall p :: p >= edge ==> Height(right, p) == Height(sky, p)
    ensures Chain(left + [seg] + right, 0.0)
    ensures forall p :: p >= 0.0 ==> Height(left + [seg] + right, p) == if x <= p < edge then seg.y else Height(sky, p)
  {
    var mid := [seg] + right;
    assert left + [seg] + right == left + mid;
    assert mid[1..] == right;
    assert Chain(mid, x);
    ChainConcat(left, mid, 0.0);
    WidthPositive(left, 0.0);
    forall p | p >= 0.0 ensures Height(left + mid, p) == if x <= p < edge then seg.y else Height(sky, p) {
      HeightConcat(left, mid, 0.0, p);
      if p < x { assert left != []; }
    }
  }

  /** The profile after a panel is placed: its bottom edge over its own columns, the same as before
      elsewhere. */
  lemma ClaimIs(sky: seq<Segment>, x: real, y: real, w: real, h: real)
    requires Chain(sky, 0.0) && w > 0.0 && 0.0 <= x <= Width(sky) && y + h >= 0.0
    ensures var s := Claimed(sky, x, y, w, h);
      && Chain(s, 0.0) && Short(s) && s != []
      && forall p :: p >= 0.0 ==> Height(s, p) == if x <= p < x + w then y + h else Height(sky, p)
  {
    hide CarveAll, Merge, SortByX, LeftOf, RightOf, Chain, Height, Width;
    var edge, seg := x + w, Segment(x, w, y + h);
    var left, right := LeftOf(sky, x), RightOf(sky, edge);
    CarveSplits(sky, 0.0, x, edge);
    LeftIs(sky, 0.0, x);
    RightIs(sky, 0.0, edge);
    var next := left + [seg] + right;
    Sorted(left, seg, right, x, edge);
    assert left + right + [seg] == (left + right) + [seg];
    JoinedIs(sky, left, seg, right, x, edge);
    assert [] + next == next;
    MergeIs([], next, 0.0);
    MergeIsShort([], next, 0.0);
    NotEmpty(Merge([], next), next, x);
  }

  // ---------- the packer ----------

  predicate Apart(a: Panel, b: Panel) {
    a.x + a.w <= b.x || b.x + b.w <= a.x || a.y + a.h <= b.y || b.y + b.h <= a.y
  }

  ghost predicate Under(sky: seq<Segment>, p: Panel) {
    forall q :: p.x <= q < p.x + p.w ==> Height(sky, q) >= p.y + p.h
  }

  lemma GapStarts(sky: seq<Segment>, need: real, x: real, y: real)
    requires Chain(sky, 0.0) && IsLowestGap(sky, need, x, y) && need > 0.0
    ensures 0.0 <= x <= Width(sky) && y >= 0.0
  {
    WidthPositive(sky, 0.0);
    GapFits(sky, need, x, y, x);
    if Width(sky) >= need {
      var s: nat :| LowestAt(sky, need, s) && x == sky[s].x && y == Top(sky[s..], need);
      HeightFrom(sky, 0.0, s, x);
    }
  }

  class Packer {
    var skyline: seq<Segment>
    ghost var placed: seq<Panel>

    /** The profile has no gap and starts at the left edge, it is at or below the bottom of every
        padded panel, and no two padded panels overlap. */
    ghost predicate Valid()
      reads this
    {
      && skyline != [] && Chain(skyline, 0.0)
      && (forall i :: 0 <= i < |placed| ==>
        placed[i].x >= 0.0 && placed[i].y >= 0.0 && placed[i].w > 0.0 && Under(skyline, placed[i]))
      && forall i, j :: 0 <= i < j < |placed| ==> Apart(placed[i], placed[j])
    }

    constructor (target: real)
      requires target > 0.0
      ensures Valid() && placed == []
    {
      skyline := [Segment(0.0, target, 0.0)];
      placed := [];
      new;
      assert skyline[1..] == [];
    }

    lemma NextBest(sky: seq<Segment>, need: real, s: nat, found: bool, best: nat)
      requires s < |sky| && (found <==> s > 0) && (found ==> BestOf(sky, need, s, best)) && Room(sky, s, need)
      ensures BestOf(sky, need, s + 1, if !found || Top(sky[s..], need) < Top(sky[best..], need) then s else best)
    {
      hide Room, Top;
    }

    lemma BestIsLowest(sky: seq<Segment>, need: real, s: nat, best: nat)
      requires 0 < s <= |sky| && BestOf(sky, need, s, best) && Room(sky, 0, need)
      requires forall o: nat :: s <= o < |sky| ==> !Room(sky, o, need)
      ensures IsLowestGap(sky, need, sky[best].x, Top(sky[best..], need))
    {
      assert sky[0..] == sky;
      assert LowestAt(sky, need, best);
    }

    lemma NoGap(sky: seq<Segment>, need: real)
      requires !Room(sky, 0, need)
      ensures IsLowestGap(sky, need, 0.0, Highest(sky))
    {
      assert sky[0..] == sky;
    }

    lemma NoRoomAfter(s: nat, need: real)
      requires Valid() && s < |skyline| && Width(skyline[s..]) < need
      ensures forall o: nat :: s <= o < |skyline| ==> !Room(skyline, o, need)
    {
      forall o: nat | s <= o < |skyline| ensures !Room(skyline, o, need) { RoomShrinks(skyline, 0.0, s, o, need); }
    }

    lemma TailWidth(sky: seq<Segment>, t: nat)
      requires Chain(sky, 0.0) && t < |sky|
      ensures Width(sky[t..]) >= 0.0
    {
      ChainFrom(sky, 0.0, t);
      WidthPositive(sky[t..], sky[t].x);
    }

    /** The span and the top of the segments from s that a panel of this width stands over. */
    method Measure(s: nat, need: real) returns (span: real, top: real)
      requires Valid() && s < |skyline| && need > 0.0
      ensures span >= need <==> Room(skyline, s, need)
      ensures span < need ==> Width(skyline[s..]) < need
      ensures top == Top(skyline[s..], need)
    {
      span, top := 0.0, 0.0;
      var t := s;
      ghost var sky := skyline;
      TopNonNegative(sky[s..], need);
      while t < |skyline| && span < need
        invariant s <= t <= |skyline|
        invariant span + Width(sky[t..]) == Width(sky[s..])
        invariant top >= 0.0 && Max(top, Top(sky[t..], need - span)) == Top(sky[s..], need)
      {
        assert sky[t..][1..] == sky[t + 1..];
        span := span + skyline[t].w;
        if skyline[t].y > top { top := skyline[t].y; }
        t := t + 1;
      }
      if t < |skyline| { TailWidth(sky, t); } else { assert sky[t..] == []; }
      TopNonNegative(sky[t..], need - span);
    }

    method Peak() returns (y: real)
      ensures y == Highest(skyline)
    {
      y := 0.0;
      var i := 0;
      assert skyline[0..] == skyline;
      HighestIsAbove(skyline, 0.0);
      while i < |skyline|
        invariant 0 <= i <= |skyline|
        invariant y >= 0.0 && Max(y, Highest(skyline[i..])) == Highest(skyline)
      {
        assert skyline[i..][1..] == skyline[i + 1..];
        y := Max(y, skyline[i].y);
        i := i + 1;
      }
    }

    method LowestGap(need: real) returns (x: real, y: real)
      requires Valid() && need > 0.0
      ensures IsLowestGap(skyline, need, x, y)
    {
      hide Room, Top, BestOf, Chain, Under, Apart, IsLowestGap, Highest;
      var found, s := false, 0;
      ghost var best := 0;
      x, y := 0.0, 0.0;
      while s < |skyline|
        invariant 0 <= s <= |skyline| && (found <==> s > 0)
        invariant found ==>
          best < s && BestOf(skyline, need, s, best) && x == skyline[best].x && y == Top(skyline[best..], need)
        invariant forall o: nat :: o < s ==> Room(skyline, o, need)
        decreases |skyline| - s
      {
        var span, top := Measure(s, need);
        if span < need {
          NoRoomAfter(s, need);
          break;
        }
        NextBest(skyline, need, s, found, best);
        if !found || top < y { x, y, found, best := skyline[s].x, top, true, s; }
        s := s + 1;
      }
      if found {
        BestIsLowest(skyline, need, s, best);
      } else {
        x := 0.0;
        y := Peak();
        NoGap(skyline, need);
      }
    }

    method CarveSegments(sky: seq<Segment>, x: real, edge: real) returns (next: seq<Segment>)
      ensures next == CarveAll(sky, x, edge)
    {
      next := [];
      var i := 0;
      assert sky[0..] == sky;
      while i < |sky|
        invariant 0 <= i <= |sky|
        invariant next + CarveAll(sky[i..], x, edge) == CarveAll(sky, x, edge)
      {
        hide Carve;
        ghost var done := next;
        assert sky[i..][1..] == sky[i + 1..];
        next := next + Carve(sky[i], x, edge);
        assert done + (Carve(sky[i], x, edge) + CarveAll(sky[i + 1..], x, edge))
          == next + CarveAll(sky[i + 1..], x, edge);
        i := i + 1;
      }
      assert sky[|sky|..] == [] && next + [] == next;
    }

    /** Neighbours at the same height become one. */
    method MergeSegments(next: seq<Segment>) returns (sky: seq<Segment>)
      ensures sky == Merge([], next)
    {
      sky := [];
      var i := 0;
      assert next[0..] == next;
      while i < |next|
        invariant 0 <= i <= |next|
        invariant Merge(sky, next[i..]) == Merge([], next)
      {
        hide Push;
        assert next[i..][1..] == next[i + 1..];
        sky := Push(sky, next[i]);
        i := i + 1;
      }
      assert next[|next|..] == [];
    }

    method Claim(x: real, y: real, w: real, h: real)
      modifies this`skyline
      ensures skyline == Claimed(old(skyline), x, y, w, h)
    {
      hide CarveAll, Merge, SortByX;
      var next := CarveSegments(skyline, x, x + w);
      next := SortByX(next + [Segment(x, w, y + h)]);
      skyline := MergeSegments(next);
    }

    lemma StillAbove(sky: seq<Segment>, after: seq<Segment>, p: Panel, x: real, y: real, w: real, h: real, q: real)
      requires Chain(sky, 0.0) && IsLowestGap(sky, w, x, y) && w > 0.0 && h > 0.0
      requires p.x >= 0.0 && Under(sky, p) && p.x <= q < p.x + p.w
      requires forall p :: p >= 0.0 ==> Height(after, p) == if x <= p < x + w then y + h else Height(sky, p)
      ensures Height(after, q) >= p.y + p.h && (x <= q < x + w ==> p.y + p.h <= y)
    {
      hide Height, IsLowestGap, Chain;
      assert Height(sky, q) >= p.y + p.h;
      if x <= q < x + w { GapFits(sky, w, x, y, q); }
    }

    lemma StillUnder(sky: seq<Segment>, after: seq<Segment>, placed: seq<Panel>, x: real, y: real, w: real, h: real)
      requires Chain(sky, 0.0) && IsLowestGap(sky, w, x, y) && w > 0.0 && h > 0.0 && x >= 0.0
      requires forall i :: 0 <= i < |placed| ==> placed[i].x >= 0.0 && placed[i].w > 0.0 && Under(sky, placed[i])
      requires forall p :: p >= 0.0 ==> Height(after, p) == if x <= p < x + w then y + h else Height(sky, p)
      ensures forall i :: 0 <= i < |placed| ==> Under(after, placed[i]) && Apart(placed[i], Panel(x, y, w, h))
      ensures Under(after, Panel(x, y, w, h))
    {
      hide Height, IsLowestGap, Chain;
      forall i | 0 <= i < |placed| ensures Under(after, placed[i]) && Apart(placed[i], Panel(x, y, w, h)) {
        var p := placed[i];
        forall q | p.x <= q < p.x + p.w
          ensures Height(after, q) >= p.y + p.h { StillAbove(sky, after, p, x, y, w, h, q); }
        var q := Max(p.x, x);
        if p.x <= q < p.x + p.w { StillAbove(sky, after, p, x, y, w, h, q); }
      }
    }

    /** Places one padded panel. */
    method Place(w: real, h: real) returns (x: real, y: real)
      requires Valid() && w > 0.0 && h > 0.0
      modifies this
      ensures Valid() && Short(skyline)
      ensures IsLowestGap(old(skyline), w, x, y)
      ensures placed == old(placed) + [Panel(x, y, w, h)]
    {
      hide IsLowestGap, Claimed, Under, Height, Chain;
      x, y := LowestGap(w);
      ghost var sky := skyline;
      GapStarts(sky, w, x, y);
      Claim(x, y, w, h);
      ClaimIs(sky, x, y, w, h);
      StillUnder(sky, skyline, placed, x, y, w, h);
      placed := placed + [Panel(x, y, w, h)];
    }
  }

  /** Any sequence of panels, whatever the width of the first row: no two padded panels overlap. */
  method PackAll(target: real, sizes: seq<(real, real)>) returns (panels: seq<Panel>)
    requires target > 0.0 && forall i :: 0 <= i < |sizes| ==> sizes[i].0 > 0.0 && sizes[i].1 > 0.0
    ensures |panels| == |sizes|
    ensures forall i :: 0 <= i < |panels| ==>
        panels[i].w == sizes[i].0 && panels[i].h == sizes[i].1 && panels[i].x >= 0.0 && panels[i].y >= 0.0
    ensures forall i, j :: 0 <= i < j < |panels| ==> Apart(panels[i], panels[j])
  {
    var packer := new Packer(target);
    panels := [];
    var i := 0;
    while i < |sizes|
      invariant 0 <= i <= |sizes| && fresh(packer) && packer.Valid()
      invariant panels == packer.placed && |panels| == i
      invariant forall j :: 0 <= j < i ==> panels[j].w == sizes[j].0 && panels[j].h == sizes[j].1
    {
      hide Chain, Under, Apart;
      var x, y := packer.Place(sizes[i].0, sizes[i].1);
      panels := panels + [Panel(x, y, sizes[i].0, sizes[i].1)];
      i := i + 1;
    }
  }
}
