/** Variables that stand for the same physical cells become one; every identity and every source
    stays recoverable. */
module Aliases {
  import opened Options
  import opened StringOrder

  /** The body is everything but the fields named here. A source is its canonical text. */
  datatype Variable = Variable(id: string, cells: seq<string>, extra: Option<seq<string>>, body: string,
                               notes: Option<string>, sources: seq<string>)

  datatype AliasGroup = AliasGroup(canonical: string, cells: seq<string>, aliases: seq<Variable>, noteUnion: bool)

  datatype Problem = DuplicateId | IncompleteCells | Conflict | UnknownId

  datatype Coalesced =
    | Merged(variables: seq<Variable>, included: map<string, seq<string>>, mapping: map<string, string>,
             groups: seq<AliasGroup>)
    | Refused(problem: Problem)

  /** How the name inside a source and blank text are read. */
  datatype Reading = Reading(nameOf: string -> Option<string>, blank: string -> bool)

  function Elements(s: seq<string>): (r: set<string>) { set x | x in s }

  predicate NoRepeats(s: seq<string>) {
    forall i, j :: 0 <= i < j < |s| ==> s[i] != s[j]
  }

  function Ids(vs: seq<Variable>): (r: seq<string>)
    ensures |r| == |vs|
  {
    seq(|vs|, i requires 0 <= i < |vs| => vs[i].id)
  }

  // ---------- groups ----------

  function Key(v: Variable): (r: seq<string>) { SortUnique(v.cells) }

  /** The cell sets in order of first appearance. */
  function Keys(vs: seq<Variable>): (r: seq<seq<string>>) {
    if vs == [] then []
    else
      var before, key := Keys(vs[..|vs| - 1]), Key(vs[|vs| - 1]);
      if key in before then before else before + [key]
  }

  function Group(vs: seq<Variable>, key: seq<string>): (r: seq<Variable>) {
    if vs == [] then []
    else
      var before := Group(vs[..|vs| - 1], key);
      if Key(vs[|vs| - 1]) == key then before + [vs[|vs| - 1]] else before
  }

  // ---------- merging one group ----------

  function NoteSet(rows: seq<Variable>): (r: set<Option<string>>) { set r | r in rows :: r.notes }

  predicate NamesItsSource(rd: Reading, v: Variable) {
    v.notes.Some? && !rd.blank(v.notes.value) && exists s :: s in v.sources && rd.nameOf(s) == v.notes
  }

  predicate NotesAreCaptions(rd: Reading, rows: seq<Variable>) {
    |NoteSet(rows)| > 1 && forall r :: r in rows ==> NamesItsSource(rd, r)
  }

  predicate Agree(a: Variable, b: Variable, captions: bool) {
    && a.body == b.body
    && (a.extra.Some? <==> b.extra.Some?)
    && (a.extra.Some? ==> multiset(a.extra.value) == multiset(b.extra.value))
    && (captions || a.notes == b.notes)
  }

  predicate Consistent(rd: Reading, rows: seq<Variable>) {
    |rows| == 1 || forall a, b :: a in rows && b in rows ==> Agree(a, b, NotesAreCaptions(rd, rows))
  }

  function Least(rows: seq<Variable>): (v: Variable)
    requires rows != []
    ensures v in rows
  {
    if |rows| == 1 then rows[0]
    else
      var rest := Least(rows[..|rows| - 1]);
      if Less(rows[|rows| - 1].id, rest.id) then rows[|rows| - 1] else rest
  }

  lemma {:induction false} LeastIsLeast(rows: seq<Variable>, v: Variable)
    requires v in rows
    ensures Least(rows).id == v.id || Less(Least(rows).id, v.id)
  {
    hide Less;
    if |rows| > 1 {
      var front, last := rows[..|rows| - 1], rows[|rows| - 1];
      assert rows == front + [last];
      var rest := Least(front);
      LessTotal(last.id, rest.id);
      if v in front {
        LeastIsLeast(front, v);
        if Less(last.id, rest.id) && Less(rest.id, v.id) { LessTransitive(last.id, rest.id, v.id); }
      }
    }
  }

  function AllSources(rows: seq<Variable>): (s: seq<string>)
    ensures forall x :: x in s <==> exists r :: r in rows && x in r.sources
  {
    if rows == [] then []
    else
      var s := rows[0].sources + AllSources(rows[1..]);
      assert rows == [rows[0]] + rows[1..];
      s
  }

  function NoteTexts(rows: seq<Variable>): (s: seq<string>)
    ensures forall x :: x in s <==> exists r :: r in rows && r.notes == Some(x)
  {
    if rows == [] then []
    else
      assert rows == [rows[0]] + rows[1..];
      (if rows[0].notes.Some? then [rows[0].notes.value] else []) + NoteTexts(rows[1..])
  }

  function Lines(s: seq<string>): (r: string) {
    if s == [] then "" else if |s| == 1 then s[0] else s[0] + "\n" + Lines(s[1..])
  }

  function Merge(rd: Reading, rows: seq<Variable>): (r: Variable)
    requires rows != []
  {
    if |rows| == 1 then rows[0]
    else
      var chosen := Least(rows);
      chosen.(sources := SortUnique(AllSources(rows)),
              notes := if NotesAreCaptions(rd, rows) then Some(Lines(SortUnique(NoteTexts(rows)))) else chosen.notes)
  }

  function InsertById(v: Variable, s: seq<Variable>): (r: seq<Variable>)
    ensures multiset(r) == multiset(s) + multiset{v}
  {
    if s == [] || Less(v.id, s[0].id) then [v] + s
    else
      assert s == [s[0]] + s[1..];
      [s[0]] + InsertById(v, s[1..])
  }

  function SortById(s: seq<Variable>): (r: seq<Variable>)
    ensures multiset(r) == multiset(s)
  {
    if s == [] then []
    else
      assert s == s[..|s| - 1] + [s[|s| - 1]];
      InsertById(s[|s| - 1], SortById(s[..|s| - 1]))
  }

  function ProvenanceOf(rd: Reading, key: seq<string>, rows: seq<Variable>): (r: seq<AliasGroup>)
    requires rows != []
  {
    if |rows| == 1 then [] else [AliasGroup(Least(rows).id, key, SortById(rows), NotesAreCaptions(rd, rows))]
  }

  // ---------- the whole list ----------

  lemma {:induction false} GroupMembers(vs: seq<Variable>, key: seq<string>, v: Variable)
    ensures v in Group(vs, key) <==> v in vs && Key(v) == key
  {
    hide Key;
    if vs != [] {
      assert vs == vs[..|vs| - 1] + [vs[|vs| - 1]];
      GroupMembers(vs[..|vs| - 1], key, v);
    }
  }

  lemma {:induction false} KeysMembers(vs: seq<Variable>, key: seq<string>)
    ensures key in Keys(vs) <==> exists v :: v in vs && Key(v) == key
  {
    hide Key;
    if vs != [] {
      var front, last := vs[..|vs| - 1], vs[|vs| - 1];
      assert vs == front + [last];
      KeysMembers(front, key);
      if v :| v in front && Key(v) == key { assert v in vs; }
      if v :| v in vs && Key(v) == key { assert v in front || v == last; }
    }
  }

  lemma {:induction false} KeysDistinct(vs: seq<Variable>)
    ensures forall i, j :: 0 <= i < j < |Keys(vs)| ==> Keys(vs)[i] != Keys(vs)[j]
  {
    hide Key;
    if vs != [] { KeysDistinct(vs[..|vs| - 1]); }
  }

  lemma GroupNonEmpty(vs: seq<Variable>, key: seq<string>)
    requires key in Keys(vs)
    ensures Group(vs, key) != []
  {
    KeysMembers(vs, key);
    var v :| v in vs && Key(v) == key;
    GroupMembers(vs, key, v);
  }

  function MergeAll(rd: Reading, vs: seq<Variable>, keys: seq<seq<string>>): (r: seq<Variable>)
    requires forall k :: k in keys ==> Group(vs, k) != []
    ensures |r| == |keys|
  {
    if keys == [] then [] else MergeAll(rd, vs, keys[..|keys| - 1]) + [Merge(rd, Group(vs, keys[|keys| - 1]))]
  }

  function AllProvenance(rd: Reading, vs: seq<Variable>, keys: seq<seq<string>>): (r: seq<AliasGroup>)
    requires forall k :: k in keys ==> Group(vs, k) != []
  {
    if keys == [] then []
    else AllProvenance(rd, vs, keys[..|keys| - 1]) + ProvenanceOf(rd, keys[|keys| - 1], Group(vs, keys[|keys| - 1]))
  }

  /** The identity that stands for a variable after merging. */
  function Standing(vs: seq<Variable>, v: Variable): (r: string)
    requires v in vs
  {
    GroupMembers(vs, Key(v), v);
    Least(Group(vs, Key(v))).id
  }

  function IdMap(vs: seq<Variable>, done: seq<Variable>): (m: map<string, string>)
    requires forall v :: v in done ==> v in vs
    ensures m.Keys == Elements(Ids(done))
  {
    if done == [] then map[]
    else
      var front, last := done[..|done| - 1], done[|done| - 1];
      assert last in vs;
      assert Ids(done) == Ids(front) + [last.id];
      IdMap(vs, front)[last.id := Standing(vs, last)]
  }

  /** The elements of a list, first occurrences only. */
  function Firsts(s: seq<string>): (r: seq<string>)
    ensures Elements(r) == Elements(s) && NoRepeats(r)
  {
    if s == [] then []
    else
      var before, last := Firsts(s[..|s| - 1]), s[|s| - 1];
      assert s == s[..|s| - 1] + [last];
      assert last in before <==> last in Elements(before);
      assert Elements(before + [last]) == Elements(before) + {last};
      assert Elements(s) == Elements(s[..|s| - 1]) + {last};
      if last in before then before else before + [last]
  }

  predicate Known(mapping: map<string, string>, included: map<string, seq<string>>) {
    forall d :: d in included ==> forall x :: x in included[d] ==> x in mapping
  }

  function Translate(mapping: map<string, string>, ids: seq<string>): (r: seq<string>)
    requires forall x :: x in ids ==> x in mapping
    ensures |r| == |ids|
  {
    seq(|ids|, i requires 0 <= i < |ids| => mapping[ids[i]])
  }

  function Project(mapping: map<string, string>, included: map<string, seq<string>>): (r: map<string, seq<string>>)
    requires Known(mapping, included)
  {
    map d | d in included :: Firsts(Translate(mapping, included[d]))
  }

  predicate CompleteCells(v: Variable) { v.cells != [] && NoRepeats(v.cells) }

  function Coalesce(rd: Reading, vs: seq<Variable>, included: map<string, seq<string>>): (r: Coalesced) {
    if !NoRepeats(Ids(vs)) then Refused(DuplicateId)
    else if exists v :: v in vs && !CompleteCells(v) then Refused(IncompleteCells)
    else if exists k :: k in Keys(vs) && !Consistent(rd, Group(vs, k)) then Refused(Conflict)
    else if !Known(IdMap(vs, vs), included) then Refused(UnknownId)
    else
      assert forall k :: k in Keys(vs) ==> Group(vs, k) != [] by {
        forall k | k in Keys(vs) ensures Group(vs, k) != [] { GroupNonEmpty(vs, k); }
      }
      Merged(MergeAll(rd, vs, Keys(vs)), Project(IdMap(vs, vs), included), IdMap(vs, vs),
        AllProvenance(rd, vs, Keys(vs)))
  }

  // ---------- the loops as the program runs them ----------

  lemma {:induction false} DistinctCount(s: seq<string>)
    ensures |Elements(s)| <= |s|
    ensures |Elements(s)| == |s| <==> NoRepeats(s)
  {
    if s != [] {
      var front, last := s[..|s| - 1], s[|s| - 1];
      assert s == front + [last];
      DistinctCount(front);
      assert Elements(s) == Elements(front) + {last};
      if last in front {
        var i :| 0 <= i < |front| && front[i] == last;
        assert s[i] == s[|s| - 1];
        assert Elements(s) == Elements(front);
      } else {
        assert last !in Elements(front);
        forall i, j | 0 <= i < j < |s| ensures NoRepeats(front) ==> s[i] != s[j] {
          assert j < |front| ==> s[j] == front[j];
          assert s[i] == front[i];
        }
        if NoRepeats(s) {
          forall i, j | 0 <= i < j < |front| ensures front[i] != front[j] {
            assert s[i] == front[i] && s[j] == front[j];
          }
        }
      }
    }
  }

  ghost predicate Grouped(groups: map<seq<string>, seq<Variable>>, order: seq<seq<string>>, vs: seq<Variable>) {
    && order == Keys(vs)
    && (forall k :: k in groups <==> k in order)
    && forall k :: k in groups ==> groups[k] == Group(vs, k)
  }

  lemma GroupAbsent(vs: seq<Variable>, key: seq<string>)
    requires key !in Keys(vs)
    ensures Group(vs, key) == []
  {
    KeysMembers(vs, key);
    if Group(vs, key) != [] { GroupMembers(vs, key, Group(vs, key)[0]); }
  }

  method GroupByCells(vs: seq<Variable>)
    returns (bad: bool, groups: map<seq<string>, seq<Variable>>, order: seq<seq<string>>)
    ensures bad <==> exists v :: v in vs && !CompleteCells(v)
    ensures !bad ==> Grouped(groups, order, vs)
  {
    bad, groups, order := false, map[], [];
    var i := 0;
    while i < |vs|
      invariant 0 <= i <= |vs|
      invariant forall v :: v in vs[..i] ==> CompleteCells(v)
      invariant Grouped(groups, order, vs[..i])
    {
      hide CompleteCells, Key;
      var v := vs[i];
      assert vs[..i + 1][..i] == vs[..i];
      if !CompleteCells(v) {
        bad := true;
        return;
      }
      var key := Key(v);
      if key !in groups {
        GroupAbsent(vs[..i], key);
        groups := groups[key := []];
        order := order + [key];
      }
      groups := groups[key := groups[key] + [v]];
      i := i + 1;
    }
    assert vs[..|vs|] == vs;
  }

  lemma IdIn(vs: seq<Variable>, v: Variable)
    requires v in vs
    ensures v.id in Elements(Ids(vs))
  {
    var i :| 0 <= i < |vs| && vs[i] == v;
    assert Ids(vs)[i] == v.id;
  }

  lemma {:induction false} IdMapAt(vs: seq<Variable>, done: seq<Variable>, v: Variable)
    requires (forall x :: x in done ==> x in vs) && NoRepeats(Ids(done)) && v in done
    ensures v.id in IdMap(vs, done) && IdMap(vs, done)[v.id] == Standing(vs, v)
  {
    hide Standing;
    IdIn(done, v);
    var front, last := done[..|done| - 1], done[|done| - 1];
    assert done == front + [last];
    if v != last {
      var i :| 0 <= i < |front| && front[i] == v;
      assert Ids(done)[i] == v.id && Ids(done)[|done| - 1] == last.id;
      assert Ids(front) == Ids(done)[..|front|];
      IdMapAt(vs, front, v);
    }
  }

  lemma IdMapIs(vs: seq<Variable>, m: map<string, string>)
    requires NoRepeats(Ids(vs)) && m.Keys == Elements(Ids(vs))
    requires forall v :: v in vs ==> v.id in m && m[v.id] == Standing(vs, v)
    ensures m == IdMap(vs, vs)
  {
    hide Standing;
    var n := IdMap(vs, vs);
    forall id | id in m ensures m[id] == n[id] {
      var i :| 0 <= i < |vs| && Ids(vs)[i] == id;
      IdMapAt(vs, vs, vs[i]);
    }
  }

  /** The identities of one group all stand for its least one. */
  method MapGroup(mapping: map<string, string>, rows: seq<Variable>, least: string) returns (m: map<string, string>)
    ensures m.Keys == mapping.Keys + Elements(Ids(rows))
    ensures forall v :: v in rows ==> v.id in m && m[v.id] == least
    ensures forall id :: id in mapping && id !in Ids(rows) ==> m[id] == mapping[id]
  {
    m := mapping;
    var i := 0;
    while i < |rows|
      invariant 0 <= i <= |rows|
      invariant m.Keys == mapping.Keys + Elements(Ids(rows[..i]))
      invariant forall v :: v in rows[..i] ==> v.id in m && m[v.id] == least
      invariant forall id :: id in mapping && id !in Ids(rows[..i]) ==> m[id] == mapping[id]
    {
      assert Ids(rows[..i + 1]) == Ids(rows[..i]) + [rows[i].id];
      m := m[rows[i].id := least];
      i := i + 1;
    }
    assert rows[..|rows|] == rows;
  }

  /** What the loop has mapped: exactly the variables of the groups done. */
  ghost predicate Mapped(m: map<string, string>, vs: seq<Variable>, done: seq<seq<string>>) {
    && (forall id :: id in m ==> exists v :: v in vs && v.id == id && Key(v) in done)
    && forall v :: v in vs && Key(v) in done ==> v.id in m && m[v.id] == Standing(vs, v)
  }

  lemma SameIdSame(vs: seq<Variable>, a: Variable, b: Variable)
    requires NoRepeats(Ids(vs)) && a in vs && b in vs && a.id == b.id
    ensures a == b
  {
    var i :| 0 <= i < |vs| && vs[i] == a;
    var j :| 0 <= j < |vs| && vs[j] == b;
    assert Ids(vs)[i] == Ids(vs)[j];
  }

  lemma MappedStep(m: map<string, string>, n: map<string, string>, vs: seq<Variable>, done: seq<seq<string>>,
                   key: seq<string>)
    requires NoRepeats(Ids(vs)) && Mapped(m, vs, done) && key in Keys(vs) && Group(vs, key) != []
    requires n.Keys == m.Keys + Elements(Ids(Group(vs, key)))
    requires forall v :: v in Group(vs, key) ==> v.id in n && n[v.id] == Least(Group(vs, key)).id
    requires forall id :: id in m && id !in Ids(Group(vs, key)) ==> n[id] == m[id]
    ensures Mapped(n, vs, done + [key])
  {
    hide Key, Less, Least, Keys, Group;
    var rows := Group(vs, key);
    forall id | id in n ensures exists v :: v in vs && v.id == id && Key(v) in done + [key] {
      if id in m {
        var v :| v in vs && v.id == id && Key(v) in done;
      } else {
        var i :| 0 <= i < |rows| && Ids(rows)[i] == id;
        GroupMembers(vs, key, rows[i]);
      }
    }
    forall v | v in vs && Key(v) in done + [key] ensures v.id in n && n[v.id] == Standing(vs, v) {
      GroupMembers(vs, key, v);
      if Key(v) != key && v.id in Ids(rows) {
        var i :| 0 <= i < |rows| && Ids(rows)[i] == v.id;
        GroupMembers(vs, key, rows[i]);
        SameIdSame(vs, v, rows[i]);
      }
    }
  }

  lemma MappedAll(m: map<string, string>, vs: seq<Variable>)
    requires NoRepeats(Ids(vs)) && Mapped(m, vs, Keys(vs))
    ensures m == IdMap(vs, vs)
  {
    hide Key, Standing;
    forall v | v in vs ensures v.id in m && m[v.id] == Standing(vs, v) { KeysMembers(vs, Key(v)); }
    forall id ensures id in m <==> id in Elements(Ids(vs)) {
      if id in m {
        var v :| v in vs && v.id == id && Key(v) in Keys(vs);
        var i :| 0 <= i < |vs| && vs[i] == v;
        assert Ids(vs)[i] == id;
      }
    }
    IdMapIs(vs, m);
  }

  method MergeGroups(rd: Reading, vs: seq<Variable>, groups: map<seq<string>, seq<Variable>>, order: seq<seq<string>>)
    returns (conflict: bool, merged: seq<Variable>, mapping: map<string, string>, provenance: seq<AliasGroup>)
    requires NoRepeats(Ids(vs)) && Grouped(groups, order, vs)
    ensures forall k :: k in order ==> Group(vs, k) != []
    ensures conflict <==> exists k :: k in order && !Consistent(rd, Group(vs, k))
    ensures !conflict ==>
        merged == MergeAll(rd, vs, order) && provenance == AllProvenance(rd, vs, order) && Mapped(mapping, vs, order)
  {
    hide Merge, ProvenanceOf, Consistent, Keys, Group, Standing;
    forall k | k in order ensures Group(vs, k) != [] { GroupNonEmpty(vs, k); }
    conflict, merged, mapping, provenance := false, [], map[], [];
    var i := 0;
    while i < |order|
      invariant 0 <= i <= |order|
      invariant forall k :: k in order[..i] ==> Consistent(rd, Group(vs, k))
      invariant merged == MergeAll(rd, vs, order[..i])
      invariant provenance == AllProvenance(rd, vs, order[..i])
      invariant Mapped(mapping, vs, order[..i])
    {
      hide Mapped;
      var key, rows := order[i], groups[order[i]];
      assert order[..i + 1] == order[..i] + [key] && order[..i + 1][..i] == order[..i];
      if !Consistent(rd, rows) {
        conflict := true;
        return;
      }
      merged := merged + [Merge(rd, rows)];
      provenance := provenance + ProvenanceOf(rd, key, rows);
      ghost var before := mapping;
      mapping := MapGroup(mapping, rows, Least(rows).id);
      MappedStep(before, mapping, vs, order[..i], key);
      i := i + 1;
    }
    assert order[..|order|] == order;
  }

  method CoalesceAliases(rd: Reading, vs: seq<Variable>, included: map<string, seq<string>>) returns (r: Coalesced)
    ensures r == Coalesce(rd, vs, included)
  {
    hide Keys, Group, Consistent, Project, Known, CompleteCells, Mapped, IdMap, MergeAll, AllProvenance, NoRepeats;
    DistinctCount(Ids(vs));
    if |Elements(Ids(vs))| != |vs| { return Refused(DuplicateId); }
    var bad, groups, order := GroupByCells(vs);
    if bad { return Refused(IncompleteCells); }
    var conflict, merged, mapping, provenance := MergeGroups(rd, vs, groups, order);
    if conflict { return Refused(Conflict); }
    MappedAll(mapping, vs);
    if !Known(mapping, included) { return Refused(UnknownId); }
    r := Merged(merged, Project(mapping, included), mapping, provenance);
  }

  // ---------- what merging promises ----------

  lemma {:induction false} MergeAllAt(rd: Reading, vs: seq<Variable>, keys: seq<seq<string>>, i: nat)
    requires (forall k :: k in keys ==> Group(vs, k) != []) && i < |keys|
    ensures MergeAll(rd, vs, keys)[i] == Merge(rd, Group(vs, keys[i]))
  {
    hide Merge, Group;
    if i < |keys| - 1 { MergeAllAt(rd, vs, keys[..|keys| - 1], i); }
  }

  lemma KeepsKey(rd: Reading, rows: seq<Variable>)
    requires rows != []
    ensures Merge(rd, rows).id == Least(rows).id && Key(Merge(rd, rows)) == Key(Least(rows))
  {
    hide Less, NotesAreCaptions, SortUnique, AllSources, NoteTexts;
  }

  /** The merged variable of a group: its cells and extra cells, its least identity, the content all
      agree on, and the sources of all. */
  lemma MergeMeans(rd: Reading, vs: seq<Variable>, key: seq<string>, v: Variable)
    requires Consistent(rd, Group(vs, key)) && v in Group(vs, key)
    ensures var m := Merge(rd, Group(vs, key));
      && Key(m) == key
      && m.body == v.body
      && (m.extra.Some? <==> v.extra.Some?)
      && (m.extra.Some? ==> multiset(m.extra.value) == multiset(v.extra.value))
      && (m.id == v.id || Less(m.id, v.id))
      && (exists x :: x in Group(vs, key) && m.id == x.id)
      && (forall s :: s in m.sources <==> exists x :: x in Group(vs, key) && s in x.sources)
  {
    hide Less, Key, Group, NotesAreCaptions, SortUnique, AllSources;
    var rows := Group(vs, key);
    var least := Least(rows);
    LeastIsLeast(rows, v);
    GroupMembers(vs, key, least);
    GroupMembers(vs, key, v);
    KeepsKey(rd, rows);
    if |rows| == 1 {
      assert rows == [v];
    } else {
      assert Agree(least, v, NotesAreCaptions(rd, rows));
    }
  }

  ghost predicate SameCells(a: Variable, b: Variable) {
    forall c :: c in a.cells <==> c in b.cells
  }

  lemma SameKey(a: Variable, b: Variable)
    ensures Key(a) == Key(b) <==> SameCells(a, b)
  {
    SortUniqueEqual(a.cells, b.cells);
  }

  lemma MergedAt(rd: Reading, vs: seq<Variable>, included: map<string, seq<string>>, i: nat)
    requires Coalesce(rd, vs, included).Merged? && i < |Keys(vs)|
    ensures var r := Coalesce(rd, vs, included);
      && |r.variables| == |Keys(vs)|
      && Group(vs, Keys(vs)[i]) != []
      && Consistent(rd, Group(vs, Keys(vs)[i]))
      && r.variables[i] == Merge(rd, Group(vs, Keys(vs)[i]))
      && Key(r.variables[i]) == Keys(vs)[i]
  {
    hide Merge, Consistent, Key, Project, Known, IdMap, CompleteCells, Group, Keys, AllProvenance;
    forall k | k in Keys(vs) ensures Group(vs, k) != [] { GroupNonEmpty(vs, k); }
    MergeAllAt(rd, vs, Keys(vs), i);
    MergeMeans(rd, vs, Keys(vs)[i], Group(vs, Keys(vs)[i])[0]);
  }

  lemma MergedSize(rd: Reading, vs: seq<Variable>, included: map<string, seq<string>>)
    requires Coalesce(rd, vs, included).Merged?
    ensures var r := Coalesce(rd, vs, included);
      |r.variables| == |Keys(vs)| && r.mapping == IdMap(vs, vs) && Known(r.mapping, included)
        && r.included == Project(r.mapping, included)
      && NoRepeats(Ids(vs))
  {
    hide Merge, Consistent, Key, CompleteCells, Project, IdMap, Known;
  }

  /** No two merged variables have the same cells. */
  lemma CellSetsAreDistinct(rd: Reading, vs: seq<Variable>, included: map<string, seq<string>>, i: nat, j: nat)
    requires var r := Coalesce(rd, vs, included); r.Merged? && i < j < |r.variables|
    ensures var r := Coalesce(rd, vs, included); !SameCells(r.variables[i], r.variables[j])
  {
    hide Key, Keys, Group, SameCells;
    MergedSize(rd, vs, included);
    MergedAt(rd, vs, included, i);
    MergedAt(rd, vs, included, j);
    KeysDistinct(vs);
    var r := Coalesce(rd, vs, included);
    SameKey(r.variables[i], r.variables[j]);
  }

  lemma StandingIs(rd: Reading, vs: seq<Variable>, v: Variable)
    requires v in vs && Group(vs, Key(v)) != []
    ensures Standing(vs, v) == Merge(rd, Group(vs, Key(v))).id
  {
    hide Less, Key, Group, NotesAreCaptions, SortUnique, AllSources, NoteTexts;
  }

  /** Every original variable has one merged variable with its cells, extra cells and content, all
      its sources, and the least identity among the variables with those cells. */
  lemma NothingIsLost(rd: Reading, vs: seq<Variable>, included: map<string, seq<string>>, v: Variable) returns (i: nat)
    requires Coalesce(rd, vs, included).Merged? && v in vs
    ensures var r := Coalesce(rd, vs, included);
      && i < |r.variables|
      && SameCells(r.variables[i], v)
      && r.variables[i].body == v.body
      && (r.variables[i].extra.Some? <==> v.extra.Some?)
      && (v.extra.Some? ==> multiset(r.variables[i].extra.value) == multiset(v.extra.value))
      && (forall s :: s in v.sources ==> s in r.variables[i].sources)
      && v.id in r.mapping && r.mapping[v.id] == r.variables[i].id
      && (forall w :: w in vs && SameCells(w, v) ==> r.mapping[v.id] == w.id || Less(r.mapping[v.id], w.id))
      && (exists w :: w in vs && SameCells(w, v) && r.mapping[v.id] == w.id)
  {
    hide Key, Keys, Group, SameCells, Less, Consistent, Merge, Coalesce, Standing;
    var r := Coalesce(rd, vs, included);
    KeysMembers(vs, Key(v));
    var k: int :| 0 <= k < |Keys(vs)| && Keys(vs)[k] == Key(v);
    i := k;
    MergedSize(rd, vs, included);
    MergedAt(rd, vs, included, i);
    var rows := Group(vs, Key(v));
    GroupMembers(vs, Key(v), v);
    MergeMeans(rd, vs, Key(v), v);
    SameKey(r.variables[i], v);
    IdMapAt(vs, vs, v);
    assert v.id in r.mapping;
    StandingIs(rd, vs, v);
    forall w | w in vs && SameCells(w, v) ensures r.mapping[v.id] == w.id || Less(r.mapping[v.id], w.id) {
      SameKey(w, v);
      GroupMembers(vs, Key(v), w);
      MergeMeans(rd, vs, Key(v), w);
    }
    var x :| x in rows && r.variables[i].id == x.id;
    GroupMembers(vs, Key(v), x);
    SameKey(x, v);
  }

  /** Every merged variable comes from the originals: its identity and each of its sources belong to
      an original with its cells. */
  lemma NothingIsAdded(rd: Reading, vs: seq<Variable>, included: map<string, seq<string>>, i: nat)
    requires var r := Coalesce(rd, vs, included); r.Merged? && i < |r.variables|
    ensures var m := Coalesce(rd, vs, included).variables[i];
      && (exists v :: v in vs && SameCells(v, m) && v.id == m.id)
      && (forall s :: s in m.sources ==> exists v :: v in vs && SameCells(v, m) && s in v.sources)
  {
    hide Key, Keys, Group, SameCells, Less, Consistent, Merge, Coalesce;
    var r := Coalesce(rd, vs, included);
    MergedSize(rd, vs, included);
    MergedAt(rd, vs, included, i);
    var key, m := Keys(vs)[i], r.variables[i];
    var rows := Group(vs, key);
    MergeMeans(rd, vs, key, rows[0]);
    forall x | x in rows ensures x in vs && SameCells(x, m) {
      GroupMembers(vs, key, x);
      SameKey(x, m);
    }
  }

  /** A group of several is recorded with all its members. */
  lemma Recorded(rd: Reading, key: seq<string>, rows: seq<Variable>, v: Variable)
    requires |rows| > 1 && v in rows
    ensures exists g ::
      g in ProvenanceOf(rd, key, rows) && v in g.aliases && g.canonical == Least(rows).id && g.cells == key
  {
    hide Less, NotesAreCaptions, Least;
    var g := AliasGroup(Least(rows).id, key, SortById(rows), NotesAreCaptions(rd, rows));
    assert v in multiset(rows);
    assert multiset(SortById(rows)) == multiset(rows);
    assert ProvenanceOf(rd, key, rows) == [g];
  }

  lemma GroupsOf(rd: Reading, vs: seq<Variable>, included: map<string, seq<string>>)
    requires Coalesce(rd, vs, included).Merged?
    ensures forall k :: k in Keys(vs) ==> Group(vs, k) != []
    ensures Coalesce(rd, vs, included).groups == AllProvenance(rd, vs, Keys(vs))
  {
    hide Merge, Consistent, Key, CompleteCells, Project, IdMap, Known, Keys, Group, AllProvenance, MergeAll;
    forall k | k in Keys(vs) ensures Group(vs, k) != [] { GroupNonEmpty(vs, k); }
  }

  lemma {:induction false} ProvenanceAt(rd: Reading, vs: seq<Variable>, keys: seq<seq<string>>, i: nat)
    requires (forall k :: k in keys ==> Group(vs, k) != []) && i < |keys|
    ensures forall g :: g in ProvenanceOf(rd, keys[i], Group(vs, keys[i])) ==> g in AllProvenance(rd, vs, keys)
  {
    hide ProvenanceOf, Group;
    if i < |keys| - 1 { ProvenanceAt(rd, vs, keys[..|keys| - 1], i); }
  }

  /** Every original stands in the provenance of its cells, unless it is alone and came through
      unchanged. */
  lemma ProvenanceKeepsOriginals(rd: Reading, vs: seq<Variable>, included: map<string, seq<string>>, v: Variable)
    requires Coalesce(rd, vs, included).Merged? && v in vs
    ensures var r := Coalesce(rd, vs, included);
      && v.id in r.mapping
      && (v in r.variables || exists g ::
        g in r.groups && v in g.aliases && g.canonical == r.mapping[v.id] && g.cells == Key(v))
  {
    hide Key, Keys, Group, Less, Consistent, Standing, SameCells, Coalesce, ProvenanceOf, SortById, NotesAreCaptions;
    var r := Coalesce(rd, vs, included);
    var i := NothingIsLost(rd, vs, included, v);
    KeysMembers(vs, Key(v));
    var k: int :| 0 <= k < |Keys(vs)| && Keys(vs)[k] == Key(v);
    MergedAt(rd, vs, included, k);
    MergedSize(rd, vs, included);
    IdMapAt(vs, vs, v);
    GroupMembers(vs, Key(v), v);
    var rows := Group(vs, Key(v));
    StandingIs(rd, vs, v);
    KeepsKey(rd, rows);
    if |rows| == 1 {
      assert rows == [v];
      assert r.variables[k] == v;
    } else {
      GroupsOf(rd, vs, included);
      ProvenanceAt(rd, vs, Keys(vs), k);
      Recorded(rd, Key(v), rows, v);
    }
  }

  /** All identities named by the included rows. */
  function Named(included: map<string, seq<string>>): (r: set<string>) {
    set d, x | d in included && x in included[d] :: x
  }

  lemma StandsForItself(rd: Reading, vs: seq<Variable>, included: map<string, seq<string>>, v: Variable, i: nat)
    requires var r := Coalesce(rd, vs, included);
      r.Merged? && i < |r.variables| && v in vs && v.id == r.variables[i].id && SameCells(v, r.variables[i])
    ensures var r := Coalesce(rd, vs, included); v.id in r.mapping && r.mapping[v.id] == v.id
  {
    hide Coalesce, Less;
    var r := Coalesce(rd, vs, included);
    var j := NothingIsLost(rd, vs, included, v);
    if i < j { CellSetsAreDistinct(rd, vs, included, i, j); }
    if j < i { CellSetsAreDistinct(rd, vs, included, j, i); }
  }

  lemma NamedBefore(mapping: map<string, string>, included: map<string, seq<string>>, x: string) returns (y: string)
    requires Known(mapping, included) && x in Named(Project(mapping, included))
    ensures y in Named(included) && y in mapping && mapping[y] == x
  {
    var d :| d in included && x in Project(mapping, included)[d];
    var translated := Translate(mapping, included[d]);
    assert x in Elements(Firsts(translated));
    assert x in Elements(translated);
    var i :| 0 <= i < |translated| && translated[i] == x;
    y := included[d][i];
    assert y in included[d];
  }

  lemma NamedAfter(mapping: map<string, string>, included: map<string, seq<string>>, y: string)
    requires Known(mapping, included) && y in Named(included)
    ensures y in mapping && mapping[y] in Named(Project(mapping, included))
  {
    var d :| d in included && y in included[d];
    var i :| 0 <= i < |included[d]| && included[d][i] == y;
    var translated := Translate(mapping, included[d]);
    assert translated[i] == mapping[y];
    assert mapping[y] in Elements(Firsts(translated));
    assert mapping[y] in Project(mapping, included)[d];
  }

  /** When the included rows name all variables and no others, the identities they name afterwards
      are the merged ones and no others. */
  lemma ReferencedAreEmitted(rd: Reading, vs: seq<Variable>, included: map<string, seq<string>>)
    requires Coalesce(rd, vs, included).Merged? && Named(included) == Elements(Ids(vs))
    ensures var r := Coalesce(rd, vs, included); Named(r.included) == Elements(Ids(r.variables))
  {
    hide Coalesce, SameCells, Less, Firsts, Known;
    var r := Coalesce(rd, vs, included);
    MergedSize(rd, vs, included);
    forall x | x in Named(r.included) ensures x in Elements(Ids(r.variables)) {
      var y := NamedBefore(r.mapping, included, x);
      var k :| 0 <= k < |vs| && Ids(vs)[k] == y;
      var i := NothingIsLost(rd, vs, included, vs[k]);
      assert Ids(r.variables)[i] == x;
    }
    forall x | x in Elements(Ids(r.variables)) ensures x in Named(r.included) {
      var i :| 0 <= i < |r.variables| && Ids(r.variables)[i] == x;
      NothingIsAdded(rd, vs, included, i);
      var v :| v in vs && SameCells(v, r.variables[i]) && v.id == x;
      IdIn(vs, v);
      StandsForItself(rd, vs, included, v, i);
      NamedAfter(r.mapping, included, x);
    }
  }
}
