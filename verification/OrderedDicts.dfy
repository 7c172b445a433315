/** An insertion-ordered dictionary kept as a cache: the last entry is the one used last. */
module OrderedDicts {

  ghost predicate Distinct<K(!new)>(s: seq<K>) {
    forall i, j :: 0 <= i < j < |s| ==> s[i] != s[j]
  }

  function Without<K(==,!new)>(s: seq<K>, key: K): (r: seq<K>)
    ensures forall k :: k in r <==> k in s && k != key
  {
    if s == [] then []
    else if s[0] == key then Without(s[1..], key)
    else [s[0]] + Without(s[1..], key)
  }

  lemma {:induction false} WithoutDistinct<K(!new)>(s: seq<K>, key: K)
    requires Distinct(s)
    ensures Distinct(Without(s, key))
  {
    if s != [] {
      assert forall i :: 0 <= i < |s[1..]| ==> s[1..][i] == s[i + 1];
      WithoutDistinct(s[1..], key);
      var rest := Without(s[1..], key);
      forall j | 0 <= j < |rest| ensures rest[j] != s[0] {
        assert rest[j] in s[1..];
      }
    }
  }

  datatype OrderedDict<K(==,!new), V> = OrderedDict(order: seq<K>, data: map<K, V>) {

    ghost predicate Valid() {
      && Distinct(order)
      && (forall k :: k in data <==> k in order)
    }

    /** Assign and move to the end. */
    function Put(key: K, value: V): (r: OrderedDict<K, V>) {
      OrderedDict(Without(order, key) + [key], data[key := value])
    }

    function DropOldest(): (r: OrderedDict<K, V>)
      requires |order| > 0
    {
      OrderedDict(order[1..], data - {order[0]})
    }

    /** Drop the oldest entries until `capacity` are left. */
    function Trimmed(capacity: nat): (r: OrderedDict<K, V>)
      decreases |order|
    {
      if |order| <= capacity then this else DropOldest().Trimmed(capacity)
    }
  }

  lemma PutValid<K(!new), V>(d: OrderedDict<K, V>, key: K, value: V)
    requires d.Valid()
    ensures d.Put(key, value).Valid()
  {
    WithoutDistinct(d.order, key);
    var kept := Without(d.order, key);
    forall i | 0 <= i < |kept| ensures kept[i] != key {
      assert kept[i] in kept;
    }
  }

  ghost predicate Precedes<K(!new)>(s: seq<K>, a: K, b: K) {
    exists i, j :: 0 <= i < j < |s| && s[i] == a && s[j] == b
  }

  lemma PrecedesStep<K(!new)>(first: K, rest: seq<K>, a: K, b: K)
    ensures Precedes([first] + rest, a, b) <==> (first == a && b in rest) || Precedes(rest, a, b)
  {
    var s := [first] + rest;
    if Precedes(s, a, b) {
      var i, j :| 0 <= i < j < |s| && s[i] == a && s[j] == b;
      assert s[j] == rest[j - 1];
      if i > 0 { assert s[i] == rest[i - 1]; }
    }
    if first == a && b in rest {
      var j :| 0 <= j < |rest| && rest[j] == b;
      assert s[0] == a && s[j + 1] == b;
    }
    if Precedes(rest, a, b) {
      var i, j :| 0 <= i < j < |rest| && rest[i] == a && rest[j] == b;
      assert s[i + 1] == a && s[j + 1] == b;
    }
  }

  lemma {:induction false} WithoutKeepsOrder<K(!new)>(s: seq<K>, key: K, a: K, b: K)
    requires a != key && b != key
    ensures Precedes(Without(s, key), a, b) <==> Precedes(s, a, b)
  {
    if s != [] {
      hide Precedes;
      WithoutKeepsOrder(s[1..], key, a, b);
      assert s == [s[0]] + s[1..];
      PrecedesStep(s[0], s[1..], a, b);
      if s[0] != key { PrecedesStep(s[0], Without(s[1..], key), a, b); }
    }
  }

  /** An assignment makes its key the last, leaves all others in their order, and changes no other
      value. */
  lemma PutIs<K(!new), V>(d: OrderedDict<K, V>, key: K, value: V, a: K, b: K)
    requires a != key && b != key
    ensures var put := d.Put(key, value);
      && put.data == d.data[key := value] && put.order != [] && put.order[|put.order| - 1] == key
      && (Precedes(put.order, a, b) <==> Precedes(d.order, a, b))
  {
    var kept := Without(d.order, key);
    WithoutKeepsOrder(d.order, key, a, b);
    var put := kept + [key];
    if Precedes(put, a, b) {
      var i, j :| 0 <= i < j < |put| && put[i] == a && put[j] == b;
      assert kept[i] == a && kept[j] == b;
    }
    if Precedes(kept, a, b) {
      var i, j :| 0 <= i < j < |kept| && kept[i] == a && kept[j] == b;
      assert put[i] == a && put[j] == b;
    }
  }

  lemma DropValid<K(!new), V>(d: OrderedDict<K, V>)
    requires d.Valid() && |d.order| > 0
    ensures d.DropOldest().Valid()
    ensures forall k :: k in d.DropOldest().data <==> k in d.data && k != d.order[0]
  {
    assert d.order[0] !in d.order[1..];
  }

  lemma {:induction false} TrimmedOrder<K(!new), V>(d: OrderedDict<K, V>, capacity: nat)
    ensures d.Trimmed(capacity).order == if |d.order| <= capacity then d.order else d.order[|d.order| - capacity..]
    decreases |d.order|
  {
    if |d.order| > capacity {
      var rest := d.DropOldest();
      TrimmedOrder(rest, capacity);
      assert rest.order[|rest.order| - capacity..] == d.order[|d.order| - capacity..];
    }
  }

  lemma {:induction false} TrimmedValues<K(!new), V>(d: OrderedDict<K, V>, capacity: nat)
    requires d.Valid()
    ensures d.Trimmed(capacity).Valid()
    ensures forall k :: k in d.Trimmed(capacity).data ==> k in d.data && d.Trimmed(capacity).data[k] == d.data[k]
    decreases |d.order|
  {
    if |d.order| > capacity {
      DropValid(d);
      TrimmedValues(d.DropOldest(), capacity);
      hide OrderedDict.Valid;
    }
  }

  /** What is left are the entries used last, in their order and with their values. */
  lemma TrimmedIs<K(!new), V>(d: OrderedDict<K, V>, capacity: nat)
    requires d.Valid()
    ensures var t := d.Trimmed(capacity);
      && t.Valid() && t.order == (if |d.order| <= capacity then d.order else d.order[|d.order| - capacity..])
      && forall k :: k in t.data ==> k in d.data && t.data[k] == d.data[k]
  {
    hide OrderedDict.Valid, OrderedDict.Trimmed;
    TrimmedOrder(d, capacity);
    TrimmedValues(d, capacity);
  }

  /** After an assignment the key is there, every other entry is one that was there before, and at
      most `capacity` are. */
  lemma PutTrimmed<K(!new), V>(d: OrderedDict<K, V>, key: K, value: V, capacity: nat)
    requires d.Valid() && capacity >= 1
    ensures var t := d.Put(key, value).Trimmed(capacity);
      && t.Valid() && |t.order| <= capacity && key in t.data && t.data[key] == value
      && forall k :: k in t.data && k != key ==> k in d.data && t.data[k] == d.data[k]
  {
    PutValid(d, key, value);
    var put := d.Put(key, value);
    TrimmedIs(put, capacity);
    assert put.order[|put.order| - 1] == key;
    var t := put.Trimmed(capacity);
    assert t.order[|t.order| - 1] == key;
  }
}
