/** Code-point order on strings, and sorting without repetition. */
module StringOrder {

  predicate Less(a: string, b: string) {
    if b == "" then false
    else if a == "" then true
    else a[0] < b[0] || (a[0] == b[0] && Less(a[1..], b[1..]))
  }

  /** A text comes before those it is the beginning of, and otherwise the smaller character at the
      first place where two texts differ decides. */
  lemma {:induction false} LessIs(a: string, b: string)
    ensures Less(a, b) <==> exists k: nat ::
      && k <= |a| && k < |b| && a[..k] == b[..k] && (k == |a| || a[k] < b[k])
  {
    if b != "" && a == "" {
      assert a[..0] == b[..0];
    } else if b != "" {
      LessIs(a[1..], b[1..]);
      if Less(a, b) {
        if a[0] < b[0] {
          assert a[..0] == b[..0];
        } else {
          var c, d := a[1..], b[1..];
          var k: nat :| k <= |c| && k < |d| && c[..k] == d[..k] && (k == |c| || c[k] < d[k]);
          assert a[..k + 1] == [a[0]] + c[..k] && b[..k + 1] == [b[0]] + d[..k];
        }
      }
      if k: nat :| k <= |a| && k < |b| && a[..k] == b[..k] && (k == |a| || a[k] < b[k]) {
        if k > 0 {
          assert a[..k][0] == b[..k][0];
          assert a[1..][..k - 1] == a[..k][1..] && b[1..][..k - 1] == b[..k][1..];
        }
      }
    }
  }

  lemma {:induction false} LessTransitive(a: string, b: string, c: string)
    requires Less(a, b) && Less(b, c)
    ensures Less(a, c)
  {
    if a != "" && a[0] == b[0] && b[0] == c[0] { LessTransitive(a[1..], b[1..], c[1..]); }
  }

  lemma {:induction false} LessIrreflexive(a: string)
    ensures !Less(a, a)
  {
    if a != "" { LessIrreflexive(a[1..]); }
  }

  lemma {:induction false} LessTotal(a: string, b: string)
    ensures Less(a, b) || a == b || Less(b, a)
  {
    if a != "" && b != "" && a[0] == b[0] {
      LessTotal(a[1..], b[1..]);
      assert a == [a[0]] + a[1..] && b == [b[0]] + b[1..];
    }
  }

  ghost predicate StrictlySorted(s: seq<string>) {
    forall i, j :: 0 <= i < j < |s| ==> Less(s[i], s[j])
  }

  function InsertUnique(x: string, s: seq<string>): (r: seq<string>)
    ensures forall y :: y in r <==> y == x || y in s
  {
    if s == [] then [x]
    else if x == s[0] then s
    else if Less(x, s[0]) then [x] + s
    else [s[0]] + InsertUnique(x, s[1..])
  }

  lemma {:induction false} InsertSorted(x: string, s: seq<string>)
    requires StrictlySorted(s)
    ensures StrictlySorted(InsertUnique(x, s))
  {
    if s != [] && x != s[0] {
      if Less(x, s[0]) {
        forall j | 0 <= j < |s| ensures Less(x, s[j]) {
          if j > 0 { LessTransitive(x, s[0], s[j]); }
        }
      } else {
        var rest := InsertUnique(x, s[1..]);
        InsertSorted(x, s[1..]);
        LessTotal(x, s[0]);
        forall j | 0 <= j < |rest| ensures Less(s[0], rest[j]) {
          assert rest[j] in rest;
          if rest[j] != x { assert rest[j] in s[1..]; }
        }
      }
    }
  }

  /** The elements of a list in order, each once. */
  function SortUnique(s: seq<string>): (r: seq<string>)
    ensures forall y :: y in r <==> y in s
  {
    if s == [] then [] else InsertUnique(s[0], SortUnique(s[1..]))
  }

  lemma {:induction false} SortUniqueSorted(s: seq<string>)
    ensures StrictlySorted(SortUnique(s))
  {
    if s != [] {
      SortUniqueSorted(s[1..]);
      InsertSorted(s[0], SortUnique(s[1..]));
    }
  }

  lemma FirstIsLeast(s: seq<string>, y: string)
    requires StrictlySorted(s) && y in s
    ensures y == s[0] || Less(s[0], y)
  {
    var i :| 0 <= i < |s| && s[i] == y;
  }

  lemma TailWithoutFirst(s: seq<string>, y: string)
    requires StrictlySorted(s) && s != []
    ensures y in s[1..] <==> y in s && y != s[0]
  {
    LessIrreflexive(s[0]);
    if y in s && y != s[0] {
      var i :| 0 <= i < |s| && s[i] == y;
      assert s[1..][i - 1] == y;
    }
    if y in s[1..] {
      var i :| 0 <= i < |s[1..]| && s[1..][i] == y;
      assert s[i + 1] == y;
    }
  }

  /** Strictly sorted lists are determined by their elements. */
  lemma {:induction false} SortedIsCanonical(a: seq<string>, b: seq<string>)
    requires StrictlySorted(a) && StrictlySorted(b) && forall y :: y in a <==> y in b
    ensures a == b
  {
    assert b == [] || b[0] in a by {
      if b != [] { assert b[0] in b; }
    }
    if a != [] {
      assert a[0] in b;
      FirstIsLeast(a, b[0]);
      FirstIsLeast(b, a[0]);
      if a[0] != b[0] { LessTransitive(a[0], b[0], a[0]); LessIrreflexive(a[0]); }
      forall y ensures y in a[1..] <==> y in b[1..] {
        TailWithoutFirst(a, y);
        TailWithoutFirst(b, y);
      }
      SortedIsCanonical(a[1..], b[1..]);
      assert a == [a[0]] + a[1..] && b == [b[0]] + b[1..];
    }
  }

  /** Two lists sort to the same list exactly when they have the same elements. */
  lemma SortUniqueEqual(a: seq<string>, b: seq<string>)
    ensures SortUnique(a) == SortUnique(b) <==> forall y :: y in a <==> y in b
  {
    hide Less;
    SortUniqueSorted(a);
    SortUniqueSorted(b);
    if forall y :: y in a <==> y in b { SortedIsCanonical(SortUnique(a), SortUnique(b)); }
    if SortUnique(a) == SortUnique(b) {
      forall y ensures y in a <==> y in b {
        assert y in SortUnique(a) <==> y in a;
        assert y in SortUnique(b) <==> y in b;
      }
    }
  }
}
