/** The chance that k of n attempts, c of which pass, contain a passing one. */
module PassAtK {
  import opened Options

  // ---------- counting subsets ----------

  function Choose(n: nat, k: nat): (r: nat)
    decreases n
  {
    if k == 0 then 1 else if n == 0 then 0 else Choose(n - 1, k) + Choose(n - 1, k - 1)
  }

  ghost function Subsets<T(!new)>(s: set<T>, k: nat): set<set<T>> {
    set t: set<T> | t <= s && |t| == k
  }

  ghost function WithEach<T(!new)>(family: set<set<T>>, x: T): set<set<T>> {
    set t | t in family :: t + {x}
  }

  lemma {:induction false} WithEachSize<T(!new)>(family: set<set<T>>, x: T)
    requires forall t :: t in family ==> x !in t
    ensures |WithEach(family, x)| == |family|
    decreases |family|
  {
    if family != {} {
      var t :| t in family;
      var rest := family - {t};
      WithEachSize(rest, x);
      assert WithEach(family, x) == WithEach(rest, x) + {t + {x}};
      forall u | u in rest ensures u + {x} != t + {x} {
        assert (u + {x}) - {x} == u;
        assert (t + {x}) - {x} == t;
      }
    }
  }

  lemma SplitSubsets<T(!new)>(s: set<T>, k: nat, x: T)
    requires x in s && k > 0
    ensures Subsets(s, k) == Subsets(s - {x}, k) + WithEach(Subsets(s - {x}, k - 1), x)
    ensures Subsets(s - {x}, k) !! WithEach(Subsets(s - {x}, k - 1), x)
  {
    forall t | t in Subsets(s, k) ensures t in Subsets(s - {x}, k) + WithEach(Subsets(s - {x}, k - 1), x) {
      if x in t {
        assert t == (t - {x}) + {x};
        assert t - {x} in Subsets(s - {x}, k - 1);
      }
    }
    forall t | t in WithEach(Subsets(s - {x}, k - 1), x) ensures t in Subsets(s, k) && x in t {
      var u :| u in Subsets(s - {x}, k - 1) && t == u + {x};
    }
  }

  lemma EmptySubset<T(!new)>(s: set<T>)
    ensures Subsets(s, 0) == {{}}
  {
    assert {} <= s;
    forall t: set<T> | t <= s && |t| == 0 ensures t == {} {}
  }

  lemma NoSubsets<T(!new)>(s: set<T>, k: nat)
    requires s == {} && k > 0
    ensures Subsets(s, k) == {}
  {
    forall t: set<T> | t <= s ensures |t| == 0 { assert t == {}; }
  }

  lemma NoneWith<T(!new)>(s: set<T>, k: nat, x: T)
    ensures forall t :: t in Subsets(s - {x}, k) ==> x !in t
  {
  }

  lemma OneMoreElement<T(!new)>(s: set<T>, k: nat, x: T)
    requires x in s && k > 0
    ensures |Subsets(s, k)| == |Subsets(s - {x}, k)| + |Subsets(s - {x}, k - 1)|
  {
    hide Subsets, WithEach;
    SplitSubsets(s, k, x);
    NoneWith(s, k - 1, x);
    WithEachSize(Subsets(s - {x}, k - 1), x);
  }

  lemma ChooseStep(n: nat, k: nat)
    ensures n > 0 && k > 0 ==> Choose(n, k) == Choose(n - 1, k) + Choose(n - 1, k - 1)
    ensures Choose(n, 0) == 1 && (k > 0 ==> Choose(0, k) == 0)
  {
  }

  /** There are as many k-element subsets as the binomial coefficient says. */
  lemma {:induction false} SubsetsCount<T(!new)>(s: set<T>, k: nat)
    ensures |Subsets(s, k)| == Choose(|s|, k)
    decreases |s|
  {
    hide Subsets, WithEach, Choose;
    if k == 0 {
      EmptySubset(s);
      ChooseStep(|s|, 0);
    } else if s == {} {
      NoSubsets(s, k);
      ChooseStep(0, k);
    } else {
      var x :| x in s;
      var rest := s - {x};
      assert |s| == |rest| + 1;
      SubsetsCount(rest, k);
      SubsetsCount(rest, k - 1);
      OneMoreElement(s, k, x);
      ChooseStep(|s|, k);
    }
  }

  /** The k-element subsets of the attempts that contain a passing one. */
  ghost function Passing<T(!new)>(attempts: set<T>, passes: set<T>, k: nat): set<set<T>> {
    set t | t in Subsets(attempts, k) && t * passes != {}
  }

  lemma PassingCount<T(!new)>(attempts: set<T>, passes: set<T>, k: nat)
    requires passes <= attempts
    ensures |passes| <= |attempts|
    ensures |Passing(attempts, passes, k)| == Choose(|attempts|, k) - Choose(|attempts| - |passes|, k)
  {
    hide Choose;
    var failing := attempts - passes;
    assert attempts == failing + passes;
    assert Subsets(attempts, k) == Passing(attempts, passes, k) + Subsets(failing, k) by {
      forall t | t in Subsets(attempts, k) ensures t in Passing(attempts, passes, k) || t in Subsets(failing, k) {
        if t * passes == {} {
          forall y | y in t ensures y in failing { assert y !in t * passes; }
        }
      }
    }
    assert Passing(attempts, passes, k) !! Subsets(failing, k) by {
      forall t | t in Subsets(failing, k) ensures t * passes == {} {}
    }
    SubsetsCount(attempts, k);
    SubsetsCount(failing, k);
  }

  // ---------- binomial coefficients ----------

  lemma {:induction false} ChooseBeyond(n: nat, k: nat)
    ensures k > n ==> Choose(n, k) == 0
    ensures k <= n ==> Choose(n, k) > 0
    decreases n
  {
    if n > 0 && k > 0 {
      ChooseBeyond(n - 1, k);
      ChooseBeyond(n - 1, k - 1);
    }
  }

  lemma Pascal(n: int, k: int, a: int, b: int, c: int)
    requires (k + 1) * a == (n - 1 - k) * b && k * b == (n - k) * c
    ensures (k + 1) * (a + b) == (n - k) * (b + c)
  {
    assert (k + 1) * (a + b) == (k + 1) * a + (k + 1) * b;
    assert (n - 1 - k) * b + (k + 1) * b == n * b;
    assert (n - k) * (b + c) == (n - k) * b + (n - k) * c;
    assert (n - k) * b + k * b == n * b;
  }

  lemma {:induction false} ChooseOne(n: nat)
    ensures Choose(n, 1) == n
    decreases n
  {
    if n > 0 {
      ChooseOne(n - 1);
      assert Choose(n - 1, 0) == 1;
    }
  }

  /** (k + 1) C(n, k + 1) = (n - k) C(n, k). */
  lemma {:induction false} Absorb(n: nat, k: nat)
    requires k <= n
    ensures (k + 1) * Choose(n, k + 1) == (n - k) * Choose(n, k)
    decreases n
  {
    if n == 0 {
    } else if k == 0 {
      ChooseOne(n);
    } else if k == n {
      ChooseBeyond(n, n + 1);
    } else {
      var a, b, c := Choose(n - 1, k + 1), Choose(n - 1, k), Choose(n - 1, k - 1);
      Absorb(n - 1, k);
      Absorb(n - 1, k - 1);
      assert (k + 1) * a == (n - 1 - k) * b;
      assert k * b == (n - k) * c;
      assert Choose(n, k + 1) == a + b && Choose(n, k) == b + c;
      Pascal(n, k, a, b, c);
    }
  }

  lemma {:induction false} ChooseGrows(m: nat, n: nat, k: nat)
    requires m <= n
    ensures Choose(m, k) <= Choose(n, k)
    decreases n
  {
    if m < n && k > 0 { ChooseGrows(m, n - 1, k); }
  }

  // ---------- the product ----------

  /** The share of k-element subsets with a passing attempt. */
  ghost function Rate(n: nat, c: int, k: nat): (r: real)
    requires k <= n && c <= n && Choose(n, k) > 0
  {
    1.0 - Choose(n - c, k) as real / Choose(n, k) as real
  }

  lemma NoDraws(n: nat, m: nat)
    ensures Choose(n, 0) == 1 && Choose(m, 0) == 1
  {
  }

  lemma NothingAvoids(n: nat, c: int, k: nat)
    requires c <= n && n - c < k <= n && Choose(n, k) > 0
    ensures Rate(n, c, k) == 1.0
  {
    hide Choose;
    ChooseBeyond(n - c, k);
  }

  lemma Cancel(k: real, a: real, b: real)
    requires k > 0.0 && k * a == k * b
    ensures a == b
  {
  }

  lemma OneFactor(p: real, m: real, n: real, k: real, cn: real, cm: real, cn1: real, cm1: real)
    requires n > 0.0 && k > 0.0 && p * cn == cm && k * cn1 == n * cn && k * cm1 == m * cm
    ensures p * (m / n) * cn1 == cm1
  {
    var q := m / n;
    assert q * n == m;
    assert k * (p * q * cn1) == p * q * (k * cn1);
    assert p * q * (n * cn) == (q * n) * (p * cn);
    assert k * (p * q * cn1) == k * cm1;
    Cancel(k, p * q * cn1, cm1);
  }

  /** One more factor keeps the product the ratio of the two binomial coefficients. */
  lemma ProductStep(p: real, n: nat, m: nat, i: nat)
    requires i < n && i <= m && p * Choose(n, i) as real == Choose(m, i) as real
    ensures p * ((m - i) as real / (n - i) as real) * Choose(n, i + 1) as real == Choose(m, i + 1) as real
  {
    hide Choose;
    Absorb(n, i);
    Absorb(m, i);
    OneFactor(p, (m - i) as real, (n - i) as real, (i + 1) as real,
      Choose(n, i) as real, Choose(m, i) as real, Choose(n, i + 1) as real, Choose(m, i + 1) as real);
  }

  lemma Quotient(p: real, a: real, b: real)
    requires a > 0.0 && p * a == b
    ensures p == b / a
  {
  }

  /** No attempts to draw from; certain; or one minus the product, which is the share of subsets that
      avoid every pass. */
  method Score(n: int, c: int, k: int) returns (r: Option<real>)
    ensures n < k ==> r == None
    ensures n >= k && n - c < k ==> r == Some(1.0)
    ensures n >= k && n - c >= k && k <= 0 ==> r == Some(0.0)
    ensures n >= k >= 0 && c <= n ==> Choose(n, k) > 0 && r == Some(Rate(n, c, k))
  {
    hide Choose;
    if n < k { return None; }
    if k >= 0 { ChooseBeyond(n, k); }
    if n - c < k {
      if k >= 0 && c <= n { NothingAvoids(n, c, k); }
      return Some(1.0);
    }
    var product: real := 1.0;
    var i := 0;
    if k >= 0 { NoDraws(n, n - c); }
    while i < k
      invariant 0 <= i && (if k >= 0 then i <= k else i == 0) && (k <= 0 ==> product == 1.0)
      invariant k >= 0 ==> product * Choose(n, i) as real == Choose(n - c, i) as real
    {
      ProductStep(product, n, n - c, i);
      product := product * ((n - c - i) as real / (n - i) as real);
      i := i + 1;
    }
    if k >= 0 { Quotient(product, Choose(n, k) as real, Choose(n - c, k) as real); }
    r := Some(1.0 - product);
  }

  // ---------- what the score means ----------

  lemma Difference(a: real, b: real)
    requires a > 0.0
    ensures 1.0 - b / a == (a - b) / a
  {
    assert (a - b) / a == a / a - b / a;
  }

  lemma RateIs(n: nat, c: nat, k: nat, a: real, x: real)
    requires k <= n && c <= n && Choose(n, k) > 0 && a == Choose(n, k) as real && x == Choose(n - c, k) as real
    ensures Rate(n, c, k) == 1.0 - x / a
  {
  }

  /** The score is the fraction of k-element subsets of the attempts that contain a pass. */
  lemma ScoreIsFraction<T(!new)>(attempts: set<T>, passes: set<T>, k: nat)
    requires passes <= attempts && k <= |attempts|
    ensures Choose(|attempts|, k) > 0 && |passes| <= |attempts|
    ensures |Subsets(attempts, k)| > 0
    ensures Rate(|attempts|, |passes|, k) == |Passing(attempts, passes, k)| as real / |Subsets(attempts, k)| as real
  {
    hide Choose;
    ChooseBeyond(|attempts|, k);
    assert attempts == (attempts - passes) + passes;
    PassingCount(attempts, passes, k);
    SubsetsCount(attempts, k);
    var a, b := Choose(|attempts|, k) as real, Choose(|attempts| - |passes|, k) as real;
    Difference(a, b);
    RateIs(|attempts|, |passes|, k, a, b);
    hide Rate;
    assert |Passing(attempts, passes, k)| as real == a - b;
  }

  lemma Divide(a: real, b: real, n: real)
    requires a <= b && n > 0.0
    ensures a / n <= b / n
  {
  }

  /** A probability, for any number of passes up to n. */
  lemma ScoreInRange(n: nat, c: nat, k: nat)
    requires k <= n && c <= n
    ensures Choose(n, k) > 0 && 0.0 <= Rate(n, c, k) <= 1.0
  {
    hide Choose;
    ChooseBeyond(n, k);
    ChooseGrows(n - c, n, k);
    var a, b := Choose(n, k) as real, Choose(n - c, k) as real;
    Divide(b, a, a);
    Divide(0.0, b, a);
  }

  /** With one draw the score is the share of passes. */
  lemma ScoreOfOne(n: nat, c: nat)
    requires 1 <= n && c <= n
    ensures Choose(n, 1) > 0 && Rate(n, c, 1) == c as real / n as real
  {
    hide Choose;
    ChooseOne(n);
    ChooseOne(n - c);
    Difference(n as real, (n - c) as real);
  }

  /** More passes never lower the score. */
  lemma ScoreGrowsWithPasses(n: nat, c: nat, d: nat, k: nat)
    requires k <= n && c <= d <= n
    ensures Choose(n, k) > 0 && Rate(n, c, k) <= Rate(n, d, k)
  {
    hide Choose;
    ChooseBeyond(n, k);
    ChooseGrows(n - d, n - c, k);
    var a, x, y := Choose(n, k) as real, Choose(n - d, k) as real, Choose(n - c, k) as real;
    Divide(x, y, a);
    RateIs(n, c, k, a, y);
    RateIs(n, d, k, a, x);
  }

  lemma CancelLess(k: real, a: real, b: real)
    requires k > 0.0 && k * a <= k * b
    ensures a <= b
  {
  }

  lemma CrossDivide(y: real, b: real, x: real, a: real)
    requires a > 0.0 && b > 0.0 && y * a <= x * b
    ensures y / b <= x / a
  {
    var p, q := y / b, x / a;
    assert p * b == y && q * a == x;
    assert (p * b) * a <= (q * a) * b;
    assert (a * b) * p <= (a * b) * q;
    assert a * b > 0.0;
    CancelLess(a * b, p, q);
  }

  lemma Ratios(a: real, b: real, x: real, y: real, k: real, p: real, q: real)
    requires a > 0.0 && b > 0.0 && x >= 0.0 && y >= 0.0 && k > 0.0 && 0.0 <= q <= p
    requires k * b == p * a && k * y == q * x
    ensures y / b <= x / a
  {
    assert k * (y * a) == (k * y) * a == q * x * a;
    assert k * (x * b) == x * (k * b) == p * a * x;
    assert q * (x * a) <= p * (x * a) by { assert x * a >= 0.0; }
    assert k * (y * a) <= k * (x * b);
    CancelLess(k, y * a, x * b);
    CrossDivide(y, b, x, a);
  }

  lemma OneMoreDraw(n: nat, m: nat, k: nat)
    requires k < n && m <= n
    ensures Choose(n, k) > 0 && Choose(n, k + 1) > 0
    ensures Choose(m, k + 1) as real / Choose(n, k + 1) as real <= Choose(m, k) as real / Choose(n, k) as real
  {
    hide Choose;
    ChooseBeyond(n, k);
    ChooseBeyond(n, k + 1);
    var a, b := Choose(n, k) as real, Choose(n, k + 1) as real;
    var x, y := Choose(m, k) as real, Choose(m, k + 1) as real;
    if m < k + 1 {
      ChooseBeyond(m, k + 1);
      Divide(0.0, x, a);
      assert y / b == 0.0;
    } else {
      Absorb(n, k);
      Absorb(m, k);
      Ratios(a, b, x, y, (k + 1) as real, (n - k) as real, (m - k) as real);
    }
  }

  /** More draws never lower the score. */
  lemma {:induction false} ScoreGrowsWithDraws(n: nat, c: nat, j: nat, k: nat)
    requires j <= k <= n && c <= n
    ensures Choose(n, j) > 0 && Choose(n, k) > 0 && Rate(n, c, j) <= Rate(n, c, k)
    decreases k
  {
    hide Choose;
    ChooseBeyond(n, j);
    ChooseBeyond(n, k);
    if j < k {
      ScoreGrowsWithDraws(n, c, j, k - 1);
      OneMoreDraw(n, n - c, k - 1);
    }
  }
}
