/** The levels at which the snapshots of a workbook stop. */
module Cutoffs {

  /** Round to the nearest integer, halves to the even one. */
  function RoundHalfEven(x: real): (r: int) {
    var f := x.Floor;
    var d := x - f as real;
    if d < 0.5 then f else if d > 0.5 then f + 1 else if f % 2 == 0 then f else f + 1
  }

  lemma RoundIsNear(x: real)
    ensures x - 0.5 <= RoundHalfEven(x) as real <= x + 0.5
  {
  }

  lemma RoundOfInt(n: int)
    ensures RoundHalfEven(n as real) == n
  {
  }

  /** Values more than 1 apart round to different integers, in order. */
  lemma RoundsApart(x: real, y: real)
    requires y - x > 1.0
    ensures RoundHalfEven(x) < RoundHalfEven(y)
  {
    RoundIsNear(x);
    RoundIsNear(y);
  }

  ghost predicate Increasing(s: seq<int>) { forall i, j :: 0 <= i < j < |s| ==> s[i] < s[j] }

  function InsertUnique(x: int, s: seq<int>): (r: seq<int>) {
    if s == [] || x < s[0] then [x] + s
    else if x == s[0] then s
    else [s[0]] + InsertUnique(x, s[1..])
  }

  /** Sorted, without repetition. */
  function SortUnique(s: seq<int>): (r: seq<int>) {
    if s == [] then [] else InsertUnique(s[0], SortUnique(s[1..]))
  }

  lemma {:induction false} SortOfIncreasing(s: seq<int>)
    requires Increasing(s)
    ensures SortUnique(s) == s
  {
    if s != [] {
      SortOfIncreasing(s[1..]);
      assert s[1..] != [] ==> s[0] < s[1..][0];
    }
  }

  function Stride(stride: int): (k: nat)
    ensures k >= 1
  {
    if stride > 1 then stride else 1
  }

  /** 0, k, 2k, ... up to deepest. */
  function Steps(deepest: nat, k: nat, at: nat): (r: seq<int>)
    requires k >= 1
    decreases deepest + 1 - at
  {
    if at > deepest then [] else [at] + Steps(deepest, k, at + k)
  }

  function AllCutoffs(deepest: nat, stride: int): (r: seq<int>) {
    var steps := Steps(deepest, Stride(stride), 0);
    if steps[|steps| - 1] != deepest then steps + [deepest] else steps
  }

  function Step(n: nat, cap: int): (r: real)
    requires cap != 1
  {
    (n - 1) as real / (cap - 1) as real
  }

  function Mark(n: nat, cap: int, i: int): (r: real)
    requires cap != 1
  {
    Step(n, cap) * i as real
  }

  /** The place of the i-th pick among n cutoffs. */
  function Spot(n: nat, cap: int, i: int): (r: int)
    requires cap != 1
  {
    RoundHalfEven(Mark(n, cap, i))
  }

  lemma Over(q: real, b: real, a: real)
    requires q * b == a && a > b > 0.0
    ensures q > 1.0
  {
  }

  lemma Ratio(a: real, b: real)
    requires a > b > 0.0
    ensures a / b > 1.0 && a / b * b == a
  {
    var q := a / b;
    assert q * b == a;
    Over(q, b, a);
  }

  lemma StepMeans(n: nat, cap: int)
    requires 2 <= cap < n
    ensures Step(n, cap) > 1.0 && Step(n, cap) * (cap - 1) as real == (n - 1) as real
  {
    var a, b := (n - 1) as real, (cap - 1) as real;
    Ratio(a, b);
  }

  lemma Scale(a: real, b: real, c: real)
    requires a <= b && c >= 0.0
    ensures c * a <= c * b
  {
  }

  lemma MarkRange(n: nat, cap: int, i: int)
    requires 2 <= cap < n && 0 <= i < cap
    ensures 0.0 <= Mark(n, cap, i) <= (n - 1) as real
    ensures Mark(n, cap, 0) == 0.0 && Mark(n, cap, cap - 1) == (n - 1) as real
  {
    hide Step;
    StepMeans(n, cap);
    var step, a, b := Step(n, cap), i as real, (cap - 1) as real;
    assert a <= b;
    Scale(0.0, a, step);
    Scale(a, b, step);
    assert Mark(n, cap, i) == step * a;
    assert Mark(n, cap, cap - 1) == step * b;
  }

  lemma SpotRange(n: nat, cap: int, i: int)
    requires 2 <= cap < n && 0 <= i < cap
    ensures 0 <= Spot(n, cap, i) < n
    ensures i == 0 ==> Spot(n, cap, i) == 0
    ensures i == cap - 1 ==> Spot(n, cap, i) == n - 1
  {
    hide RoundHalfEven, Mark;
    MarkRange(n, cap, i);
    RoundIsNear(Mark(n, cap, i));
    RoundOfInt(n - 1);
    RoundOfInt(0);
  }

  function PickAt(all: seq<int>, cap: int, i: int): (r: int)
    requires 2 <= cap < |all| && 0 <= i < cap
  {
    SpotRange(|all|, cap, i);
    all[Spot(|all|, cap, i)]
  }

  function Picks(all: seq<int>, cap: int): (r: seq<int>)
    requires 2 <= cap < |all|
  {
    seq(cap, i requires 0 <= i < cap => PickAt(all, cap, i))
  }

  /** A cap of 0 is no cap; a negative cap picks nothing. */
  function CutoffList(deepest: nat, stride: int, cap: int): (r: seq<int>) {
    var all := AllCutoffs(deepest, stride);
    if cap == 0 || |all| <= cap then all
    else if cap == 1 then [deepest]
    else if cap < 0 then []
    else SortUnique(Picks(all, cap))
  }

  lemma MarksApart(n: nat, cap: int, i: int, j: int)
    requires 2 <= cap < n && 0 <= i < j < cap
    ensures Mark(n, cap, j) - Mark(n, cap, i) > 1.0
  {
    hide Step;
    StepMeans(n, cap);
    var c, a, b := Step(n, cap), i as real, j as real;
    var d := b - a;
    Scale(1.0, d, c);
    assert c * d > 1.0;
    assert c * b == c * a + c * d;
  }

  /** Different places pick different cutoffs: the step is more than 1, so rounding halves to even
      never brings two together. */
  lemma PicksApart(n: nat, cap: int, i: int, j: int)
    requires 2 <= cap < n && 0 <= i < j < cap
    ensures Spot(n, cap, i) < Spot(n, cap, j)
  {
    hide RoundHalfEven, Mark;
    MarksApart(n, cap, i, j);
    RoundsApart(Mark(n, cap, i), Mark(n, cap, j));
  }

  lemma NoMultipleBetween(d: int, k: nat)
    requires 0 <= k * d < k
    ensures d == 0
  {
  }

  lemma MultipleMod(q: int, k: nat)
    requires k >= 1
    ensures (k * q) % k == 0
  {
    var r := (k * q) % k;
    var p := (k * q) / k;
    assert k * q == k * p + r;
    assert r == k * (q - p);
    assert q == p by { NoMultipleBetween(q - p, k); }
  }

  lemma ModShift(a: int, k: nat)
    requires k >= 1 && (a - k) % k == 0
    ensures a % k == 0
  {
    var q := (a - k) / k;
    assert a == k * (q + 1);
    MultipleMod(q + 1, k);
  }

  lemma {:induction false} StepsAre(deepest: nat, k: nat, at: nat)
    requires k >= 1
    ensures var s := Steps(deepest, k, at);
      Increasing(s) && (at <= deepest ==> s != [] && s[0] == at)
        && forall i :: 0 <= i < |s| ==> at <= s[i] <= deepest && (s[i] - at) % k == 0
    decreases deepest + 1 - at
  {
    if at <= deepest {
      StepsAre(deepest, k, at + k);
      var s, rest := Steps(deepest, k, at), Steps(deepest, k, at + k);
      forall i | 0 <= i < |s| ensures at <= s[i] <= deepest && (s[i] - at) % k == 0 {
        if i > 0 {
          assert s[i] == rest[i - 1];
          ModShift(s[i] - at, k);
        }
      }
    }
  }

  /** The deepest level or a multiple of the stride. */
  predicate OnGrid(c: int, deepest: nat, stride: int) { c == deepest || c % Stride(stride) == 0 }

  lemma LastIsDeepest(deepest: nat, stride: int)
    ensures var all := AllCutoffs(deepest, stride);
      Increasing(all) && all != [] && all[0] == 0 && all[|all| - 1] == deepest
  {
    StepsAre(deepest, Stride(stride), 0);
    hide Steps, Stride;
  }

  lemma AllIncreasing(deepest: nat, stride: int)
    ensures var all := AllCutoffs(deepest, stride);
      Increasing(all) && all != [] && all[0] == 0 && all[|all| - 1] == deepest
      && forall i :: 0 <= i < |all| ==> 0 <= all[i] <= deepest && OnGrid(all[i], deepest, stride)
  {
    hide Steps, Stride;
    var all, s, k := AllCutoffs(deepest, stride), Steps(deepest, Stride(stride), 0), Stride(stride);
    StepsAre(deepest, k, 0);
    forall i | 0 <= i < |all| ensures 0 <= all[i] <= deepest && OnGrid(all[i], deepest, stride) {
      if i < |s| { assert (s[i] - 0) % k == 0; }
    }
    LastIsDeepest(deepest, stride);
  }

  lemma PicksAre(all: seq<int>, cap: int)
    requires 2 <= cap < |all| && Increasing(all)
    ensures var c := Picks(all, cap);
      Increasing(c) && SortUnique(c) == c && |c| == cap && c[0] == all[0] && c[cap - 1] == all[|all| - 1]
        && forall i :: 0 <= i < cap ==> c[i] in all
  {
    hide Spot;
    var c := Picks(all, cap);
    forall i | 0 <= i < cap ensures c[i] in all { SpotRange(|all|, cap, i); }
    SpotRange(|all|, cap, 0);
    SpotRange(|all|, cap, cap - 1);
    forall i, j | 0 <= i < j < cap ensures c[i] < c[j] {
      SpotRange(|all|, cap, i);
      SpotRange(|all|, cap, j);
      PicksApart(|all|, cap, i, j);
    }
    SortOfIncreasing(c);
  }

  /** For every cap but a negative one the cutoffs increase strictly, are multiples of the stride up
      to the last, and end at the deepest level; a negative cap gives none at all. */
  lemma CutoffsAreRight(deepest: nat, stride: int, cap: int)
    ensures var c := CutoffList(deepest, stride, cap);
      && Increasing(c)
      && (c == [] <==> cap < 0)
      && (cap >= 0 ==> c[|c| - 1] == deepest)
      && (cap != 1 && cap >= 0 ==> c[0] == 0 || deepest == 0)
      && (forall i :: 0 <= i < |c| ==> 0 <= c[i] <= deepest && OnGrid(c[i], deepest, stride))
  {
    hide AllCutoffs, Stride, Picks, OnGrid;
    var all := AllCutoffs(deepest, stride);
    AllIncreasing(deepest, stride);
    if 2 <= cap < |all| {
      PicksAre(all, cap);
      hide SortUnique;
      var c := Picks(all, cap);
      forall i | 0 <= i < |c| ensures 0 <= c[i] <= deepest && OnGrid(c[i], deepest, stride) {
        assert c[i] in all;
      }
    }
  }

  /** A cap of at least 1 that bites gives exactly that many cutoffs, and one that does not bite
      changes nothing. */
  lemma CapIsMet(deepest: nat, stride: int, cap: int)
    requires cap >= 1
    ensures var all := AllCutoffs(deepest, stride);
      |CutoffList(deepest, stride, cap)| == (if |all| > cap then cap else |all|)
        && (|all| <= cap ==> CutoffList(deepest, stride, cap) == all)
  {
    hide AllCutoffs, Picks;
    var all := AllCutoffs(deepest, stride);
    AllIncreasing(deepest, stride);
    if 2 <= cap < |all| { PicksAre(all, cap); }
  }

  lemma OneMore(k: nat, i: int)
    ensures k * i == k + k * (i - 1)
  {
  }

  lemma {:induction false} StepsListed(deepest: nat, k: nat, at: nat)
    requires k >= 1
    ensures var s := Steps(deepest, k, at);
      && (forall i :: 0 <= i < |s| ==> s[i] == at + k * i)
      && at + k * |s| > deepest && (s != [] ==> at + k * (|s| - 1) <= deepest)
    decreases deepest + 1 - at
  {
    if at <= deepest {
      StepsListed(deepest, k, at + k);
      var s, rest := Steps(deepest, k, at), Steps(deepest, k, at + k);
      forall i | 0 <= i < |s| ensures s[i] == at + k * i {
        if i > 0 {
          assert s[i] == rest[i - 1];
          OneMore(k, i);
        }
      }
      OneMore(k, |s|);
      if rest != [] { OneMore(k, |rest|); }
    }
  }

  lemma Uncapped(s: seq<int>, all: seq<int>, deepest: nat, k: nat, i: nat)
    requires k >= 1 && s != [] && Increasing(s) && all == if s[|s| - 1] != deepest then s + [deepest] else s
    requires forall h :: 0 <= h < |s| ==> s[h] == k * h
    requires k * |s| > deepest && k * (|s| - 1) <= deepest
    ensures i < |all| ==> all[i] == if k * i < deepest then k * i else deepest
    ensures |all| >= 1 && k * (|all| - 1) >= deepest && (|all| > 1 ==> k * (|all| - 2) < deepest)
  {
    OneMore(k, |s|);
    if |all| > 1 { OneMore(k, |all| - 1); }
    if i < |s| - 1 { assert s[i] < s[|s| - 1]; }
  }

  /** Without a cap: the multiples of the stride in order, a stride below 1 counting as 1, each at
      most the deepest level, and the deepest level after them if it is not one of them. */
  lemma UncappedAre(deepest: nat, stride: int, i: nat)
    ensures var all, k := CutoffList(deepest, stride, 0), if stride > 1 then stride else 1;
      && (i < |all| ==> all[i] == if k * i < deepest then k * i else deepest)
      && |all| >= 1 && k * (|all| - 1) >= deepest && (|all| > 1 ==> k * (|all| - 2) < deepest)
  {
    var k := Stride(stride);
    var s := Steps(deepest, k, 0);
    StepsAre(deepest, k, 0);
    StepsListed(deepest, k, 0);
    hide Steps;
    forall h | 0 <= h < |s| ensures s[h] == k * h { assert s[h] == 0 + k * h; }
    Uncapped(s, AllCutoffs(deepest, stride), deepest, k, i);
  }

  lemma ProductSign(x: real, y: real)
    requires x >= 0.0 && y > 0.0
    ensures x * y >= 0.0 && (x * y == 0.0 ==> x == 0.0)
  {
  }

  lemma WithinHalf(d: real, y: real, product: real)
    requires -0.5 <= d <= 0.5 && y > 0.0 && product == d * y
    ensures -y <= 2.0 * product <= y
    ensures 2.0 * product == y ==> d == 0.5
    ensures 2.0 * product == -y ==> d == -0.5
  {
    ProductSign(0.5 - d, y);
    ProductSign(d + 0.5, y);
    assert (0.5 - d) * y == 0.5 * y - product;
    assert (d + 0.5) * y == product + 0.5 * y;
  }

  lemma RoundIsNearest(x: real)
    ensures -0.5 <= x - RoundHalfEven(x) as real <= 0.5
    ensures x - RoundHalfEven(x) as real in {-0.5, 0.5} ==> RoundHalfEven(x) % 2 == 0
  {
  }

  lemma Spread(q: real, y: real, j: real)
    ensures (q - j) * y == q * y - j * y
  {
  }

  lemma IntProduct(j: int, b: int)
    ensures (j * b) as real == j as real * b as real
  {
  }

  lemma Quotient(x: real, y: real)
    requires y > 0.0
    ensures x / y * y == x
  {
  }

  lemma IntBounds(e: int, b: int, product: real)
    requires e as real == product && -(b as real) <= 2.0 * product <= b as real
    ensures -b <= 2 * e <= b
    ensures 2 * e == b <==> 2.0 * product == b as real
    ensures 2 * e == -b <==> 2.0 * product == -(b as real)
  {
    assert (2 * e) as real == 2.0 * product;
  }

  lemma ScaledError(a: int, b: int, q: real, j: int, e: int, product: real)
    requires q * b as real == a as real && e == a - j * b && product == (q - j as real) * b as real
    ensures product == e as real
  {
    Spread(q, b as real, j as real);
    IntProduct(j, b);
  }

  lemma NearestScaled(a: int, b: int, q: real, j: int)
    requires b > 0 && q * b as real == a as real && -0.5 <= q - j as real <= 0.5
    requires q - j as real in {-0.5, 0.5} ==> j % 2 == 0
    ensures -b <= 2 * (a - j * b) <= b && (2 * (a - j * b) in {-b, b} ==> j % 2 == 0)
  {
    var e, d := a - j * b, q - j as real;
    var product := d * b as real;
    WithinHalf(d, b as real, product);
    ScaledError(a, b, q, j, e, product);
    IntBounds(e, b, product);
  }

  /** The nearest whole number to a / b, and of two as near the even one. */
  lemma NearestQuotient(a: int, b: int)
    requires b > 0
    ensures var j := RoundHalfEven(a as real / b as real);
      -b <= 2 * (a - j * b) <= b && (2 * (a - j * b) in {-b, b} ==> j % 2 == 0)
  {
    hide RoundHalfEven;
    var q := a as real / b as real;
    RoundIsNearest(q);
    Quotient(a as real, b as real);
    NearestScaled(a, b, q, RoundHalfEven(q));
  }

  lemma MarkIsQuotient(n: nat, cap: int, i: int)
    requires cap > 1
    ensures Mark(n, cap, i) == (i * (n - 1)) as real / (cap - 1) as real
  {
    var a, b, c := (n - 1) as real, (cap - 1) as real, i as real;
    assert a / b * c == a * c / b;
    assert a * c == (i * (n - 1)) as real;
  }

  /** A cap that bites picks its cutoffs evenly among all n of them: the i-th is the one nearest to
      i (n - 1) / (cap - 1), of two as near the one in an even place. */
  lemma PicksAreNearest(deepest: nat, stride: int, cap: int, i: int)
    requires 2 <= cap < |CutoffList(deepest, stride, 0)| && 0 <= i < cap
    ensures var all, c := CutoffList(deepest, stride, 0), CutoffList(deepest, stride, cap);
      |c| == cap && exists j ::
        && 0 <= j < |all| && c[i] == all[j] && -(cap - 1) <= 2 * (i * (|all| - 1) - j * (cap - 1)) <= cap - 1
        && (2 * (i * (|all| - 1) - j * (cap - 1)) in {-(cap - 1), cap - 1} ==> j % 2 == 0)
  {
    var all := AllCutoffs(deepest, stride);
    var n := |all|;
    hide AllCutoffs, RoundHalfEven, SortUnique, Mark, Step, Increasing;
    AllIncreasing(deepest, stride);
    PicksAre(all, cap);
    SpotRange(n, cap, i);
    var j := Spot(n, cap, i);
    assert CutoffList(deepest, stride, cap)[i] == all[j];
    MarkIsQuotient(n, cap, i);
    NearestQuotient(i * (n - 1), cap - 1);
  }

  /** A cap of -1 over four levels gives no cutoff at all. */
  lemma NegativeCapGivesNone()
    ensures CutoffList(3, 1, -1) == [] && AllCutoffs(3, 1) == [0, 1, 2, 3]
  {
    assert Steps(3, 1, 0) == [0] + ([1] + ([2] + ([3] + Steps(3, 1, 4))));
  }
}
