/** Readable, never repeated identifiers. */
module FreshNames {

  function Digit(d: nat): (r: char)
    requires d < 10
  {
    ['0', '1', '2', '3', '4', '5', '6', '7', '8', '9'][d]
  }

  function Decimal(n: nat): (s: string)
    ensures s != ""
  {
    (if n < 10 then "" else Decimal(n / 10)) + [Digit(n % 10)]
  }

  lemma {:induction false} DecimalInjective(a: nat, b: nat)
    requires Decimal(a) == Decimal(b)
    ensures a == b
  {
    var s, t := Decimal(a), Decimal(b);
    assert s[|s| - 1] == Digit(a % 10) && t[|t| - 1] == Digit(b % 10);
    assert a % 10 == b % 10;
    var front, other := if a < 10 then "" else Decimal(a / 10), if b < 10 then "" else Decimal(b / 10);
    assert s[..|s| - 1] == front && t[..|t| - 1] == other;
    if a >= 10 && b >= 10 { DecimalInjective(a / 10, b / 10); }
  }

  function Numbered(stem: string, n: nat): (r: string) { stem + "-" + Decimal(n) }

  lemma NumberedInjective(stem: string, a: nat, b: nat)
    requires Numbered(stem, a) == Numbered(stem, b)
    ensures a == b
  {
    assert Numbered(stem, a)[|stem| + 1..] == Decimal(a);
    assert Numbered(stem, b)[|stem| + 1..] == Decimal(b);
    DecimalInjective(a, b);
  }

  /** The numbered names from n on that are in use. */
  ghost function Taken(stem: string, used: set<string>, n: nat): (r: set<string>) {
    set u | u in used && exists m: nat :: m >= n && u == Numbered(stem, m)
  }

  lemma SubsetSize<T>(a: set<T>, b: set<T>)
    requires a <= b
    ensures |a| <= |b|
  {
    assert b == a + (b - a);
  }

  lemma TakenShrinks(stem: string, used: set<string>, n: nat)
    requires Numbered(stem, n) in used
    ensures |Taken(stem, used, n + 1)| < |Taken(stem, used, n)|
  {
    hide Numbered;
    var u, a, b := Numbered(stem, n), Taken(stem, used, n), Taken(stem, used, n + 1);
    assert u in a;
    if u in b {
      var m: nat :| m >= n + 1 && u == Numbered(stem, m);
      NumberedInjective(stem, n, m);
    }
    assert u !in b;
    assert b <= a - {u};
    SubsetSize(b, a - {u});
  }

  /** The first unused numbered name, counting from n. */
  function FirstFree(stem: string, used: set<string>, n: nat): (id: string)
    ensures id !in used
    ensures exists m: nat ::
      m >= n && id == Numbered(stem, m) && forall k: nat :: n <= k < m ==> Numbered(stem, k) in used
    decreases |Taken(stem, used, n)|
  {
    var id := Numbered(stem, n);
    if id !in used then id
    else
      TakenShrinks(stem, used, n);
      FirstFree(stem, used, n + 1)
  }

  method NextFree(first: string, stem: string, used: set<string>) returns (id: string)
    ensures id == if first !in used then first else FirstFree(stem, used, 2)
  {
    id := first;
    var n: nat := 2;
    if id in used {
      id := Numbered(stem, n);
      while id in used
        invariant n >= 2 && id == Numbered(stem, n)
        invariant FirstFree(stem, used, n) == FirstFree(stem, used, 2)
        decreases |Taken(stem, used, n)|
      {
        TakenShrinks(stem, used, n);
        n := n + 1;
        id := Numbered(stem, n);
      }
    }
  }
}
