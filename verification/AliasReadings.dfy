/** When merging refuses a list of variables, and every field of what it merges. */
module AliasReadings {
  import opened Options
  import opened StringOrder
  import opened Aliases

  // ---------- when it refuses ----------

  /** Variables with these cells have different notes, and each of their notes is the name of one of
      its own sources. */
  ghost predicate Captions(rd: Reading, vs: seq<Variable>, v: Variable) {
    && (exists a, b :: a in vs && b in vs && SameCells(a, v) && SameCells(b, v) && a.notes != b.notes)
    && forall w :: w in vs && SameCells(w, v) ==>
      w.notes.Some? && !rd.blank(w.notes.value) && exists s :: s in w.sources && rd.nameOf(s) == w.notes
  }

  /** Two variables with the same cells that cannot be one: they differ in content, in whether they
      have extra cells, in those, or in notes that are no captions. */
  ghost predicate Clash(rd: Reading, vs: seq<Variable>, a: Variable, b: Variable) {
    && a in vs && b in vs && SameCells(a, b)
    && (|| a.body != b.body || a.extra.Some? != b.extra.Some?
        || (a.extra.Some? && b.extra.Some? && multiset(a.extra.value) != multiset(b.extra.value))
        || (a.notes != b.notes && !Captions(rd, vs, a)))
  }

  lemma InGroup(vs: seq<Variable>, v: Variable, w: Variable)
    ensures w in Group(vs, Key(v)) <==> w in vs && SameCells(w, v)
  {
    hide Key, Group, SameCells;
    GroupMembers(vs, Key(v), w);
    SameKey(w, v);
  }

  lemma Fits<T>(a: set<T>, b: set<T>)
    requires a <= b
    ensures |a| <= |b|
  {
    assert b == a + (b - a);
  }

  lemma SeveralNotes(rows: seq<Variable>)
    ensures |NoteSet(rows)| > 1 <==> exists a, b :: a in rows && b in rows && a.notes != b.notes
  {
    if a, b :| a in rows && b in rows && a.notes != b.notes {
      assert {a.notes, b.notes} <= NoteSet(rows);
      Fits({a.notes, b.notes}, NoteSet(rows));
    }
    if |NoteSet(rows)| > 1 {
      var x :| x in NoteSet(rows);
      assert NoteSet(rows) != {x};
      var y :| y in NoteSet(rows) && y != x;
    }
  }

  lemma CaptionsAre(rd: Reading, vs: seq<Variable>, v: Variable)
    ensures NotesAreCaptions(rd, Group(vs, Key(v))) <==> Captions(rd, vs, v)
  {
    hide Key, Group, SameCells;
    var rows := Group(vs, Key(v));
    forall w ensures w in rows <==> w in vs && SameCells(w, v) { InGroup(vs, v, w); }
    SeveralNotes(rows);
  }

  lemma SameCellsBack(a: Variable, b: Variable)
    ensures SameCells(a, b) <==> SameCells(b, a)
    ensures SameCells(a, a)
  {
  }

  lemma ConflictIs(rd: Reading, vs: seq<Variable>)
    ensures (exists k :: k in Keys(vs) && !Consistent(rd, Group(vs, k))) <==> exists a, b :: Clash(rd, vs, a, b)
  {
    hide Key, Keys, Group, SameCells, NotesAreCaptions, Captions;
    if k :| k in Keys(vs) && !Consistent(rd, Group(vs, k)) {
      var a, b :| a in Group(vs, k) && b in Group(vs, k) && !Agree(a, b, NotesAreCaptions(rd, Group(vs, k)));
      GroupMembers(vs, k, a);
      GroupMembers(vs, k, b);
      SameKey(a, b);
      CaptionsAre(rd, vs, a);
      assert Clash(rd, vs, a, b);
    }
    if a, b :| Clash(rd, vs, a, b) {
      var k := Key(a);
      KeysMembers(vs, k);
      InGroup(vs, a, a);
      InGroup(vs, a, b);
      SameCellsBack(a, b);
      CaptionsAre(rd, vs, a);
      var rows := Group(vs, k);
      if |rows| == 1 { assert rows == [rows[0]]; }
      assert !Agree(a, b, NotesAreCaptions(rd, rows));
    }
  }

  lemma RepeatedIds(vs: seq<Variable>)
    ensures NoRepeats(Ids(vs)) <==> !exists i, j :: 0 <= i < j < |vs| && vs[i].id == vs[j].id
  {
    if i, j :| 0 <= i < j < |vs| && vs[i].id == vs[j].id { assert Ids(vs)[i] == Ids(vs)[j]; }
    if !NoRepeats(Ids(vs)) {
      var i, j :| 0 <= i < j < |Ids(vs)| && Ids(vs)[i] == Ids(vs)[j];
      assert vs[i].id == vs[j].id;
    }
  }

  lemma KnownIs(vs: seq<Variable>, included: map<string, seq<string>>)
    ensures Known(IdMap(vs, vs), included)
      <==> !exists d, x :: d in included && x in included[d] && forall v :: v in vs ==> v.id != x
  {
    hide IdMap;
    forall x ensures x in IdMap(vs, vs) <==> exists v :: v in vs && v.id == x {
      if x in Elements(Ids(vs)) {
        var i :| 0 <= i < |vs| && Ids(vs)[i] == x;
        assert vs[i] in vs;
      }
      if v :| v in vs && v.id == x { IdIn(vs, v); }
    }
  }

  /** The four refusals in their order: an identity used twice, a variable without cells or with one
      cell twice, two variables that clash, and a row that names an identity nobody has. */
  lemma RefusalsAre(rd: Reading, vs: seq<Variable>, included: map<string, seq<string>>)
    ensures var r := Coalesce(rd, vs, included);
      if exists i, j :: 0 <= i < j < |vs| && vs[i].id == vs[j].id then r == Refused(DuplicateId)
      else if exists v ::
          v in vs && (v.cells == [] || exists i, j :: 0 <= i < j < |v.cells| && v.cells[i] == v.cells[j])
        then r == Refused(IncompleteCells)
      else if exists a, b :: Clash(rd, vs, a, b) then r == Refused(Conflict)
      else if exists d, x :: d in included && x in included[d] && forall v :: v in vs ==> v.id != x
        then r == Refused(UnknownId)
      else r.Merged?
  {
    hide Key, Keys, Group, Consistent, Clash, MergeAll, AllProvenance, Project, IdMap;
    ConflictIs(rd, vs);
    RepeatedIds(vs);
    KnownIs(vs, included);
  }

  // ---------- what it merges ----------

  lemma Twice(rows: seq<Variable>, v: Variable)
    requires forall i :: 0 <= i < |rows| ==> rows[i] == v
    ensures |rows| > 1 ==> multiset(rows)[v] >= 2
  {
    if |rows| > 1 { assert rows == [v, v] + rows[2..]; }
  }

  lemma {:induction false} OnlyOnce(vs: seq<Variable>, v: Variable)
    requires NoRepeats(Ids(vs))
    ensures multiset(vs)[v] <= 1
  {
    if vs != [] {
      var front, last := vs[..|vs| - 1], vs[|vs| - 1];
      assert vs == front + [last];
      forall i, j | 0 <= i < j < |front| ensures Ids(front)[i] != Ids(front)[j] {
        assert Ids(vs)[i] != Ids(vs)[j];
      }
      OnlyOnce(front, v);
      if v in front {
        var i :| 0 <= i < |front| && front[i] == v;
        assert Ids(vs)[i] != Ids(vs)[|vs| - 1];
      }
    }
  }

  /** A group holds a variable no more often than the list does. */
  lemma {:induction false} GroupSize(vs: seq<Variable>, key: seq<string>, v: Variable)
    ensures multiset(Group(vs, key))[v] <= multiset(vs)[v]
  {
    hide Key;
    if vs != [] {
      var front, last := vs[..|vs| - 1], vs[|vs| - 1];
      assert vs == front + [last];
      GroupSize(front, key, v);
    }
  }

  lemma AloneIs(vs: seq<Variable>, v: Variable)
    requires v in vs && NoRepeats(Ids(vs)) && forall w :: w in vs && SameCells(w, v) ==> w == v
    ensures Group(vs, Key(v)) == [v]
  {
    hide Key, SameCells, NoRepeats, Ids;
    var rows := Group(vs, Key(v));
    forall w ensures w in rows <==> w in vs && SameCells(w, v) { InGroup(vs, v, w); }
    SameCellsBack(v, v);
    assert v in rows;
    forall i | 0 <= i < |rows| ensures rows[i] == v { assert rows[i] in rows; }
    Twice(rows, v);
    GroupSize(vs, Key(v), v);
    OnlyOnce(vs, v);
  }

  /** The lines of a text, each ended by a line break but the last. */
  lemma LinesAre(first: string, rest: seq<string>)
    ensures Lines([first]) == first
    ensures rest != [] ==> Lines([first] + rest) == first + "\n" + Lines(rest)
  {
    assert ([first] + rest)[1..] == rest;
  }

  lemma MergeOne(rd: Reading, v: Variable)
    ensures Merge(rd, [v]) == v
  {
  }

  lemma Several(rows: seq<Variable>, v: Variable, w: Variable)
    requires v in rows && w in rows && v != w
    ensures |rows| > 1
  {
  }

  lemma MergeSeveral(rd: Reading, rows: seq<Variable>, v: Variable)
    requires |rows| > 1 && Consistent(rd, rows) && v in rows
    ensures var m := Merge(rd, rows);
      && StrictlySorted(m.sources)
      && (forall s :: s in m.sources <==> exists w :: w in rows && s in w.sources)
      && m.notes == if NotesAreCaptions(rd, rows) then Some(Lines(SortUnique(NoteTexts(rows)))) else v.notes
  {
    hide Less, NotesAreCaptions, NoteTexts, Lines;
    SortUniqueSorted(AllSources(rows));
    assert Agree(Least(rows), v, NotesAreCaptions(rd, rows));
  }

  /** A variable that shares its cells with no other comes through unchanged. One that does is merged
      into one whose sources are sorted, each once, and whose notes are everyone's, or where the notes
      are captions all of them, sorted, each once, a line each. */
  lemma MergedFields(rd: Reading, vs: seq<Variable>, included: map<string, seq<string>>, v: Variable)
    returns (m: Variable, notes: seq<string>)
    requires Coalesce(rd, vs, included).Merged? && v in vs
    ensures m in Coalesce(rd, vs, included).variables && SameCells(m, v)
    ensures (forall w :: w in vs && SameCells(w, v) ==> w == v) ==> m == v
    ensures (exists w :: w in vs && SameCells(w, v) && w != v) ==>
      && StrictlySorted(m.sources)
      && (forall s :: s in m.sources <==> exists w :: w in vs && SameCells(w, v) && s in w.sources)
      && m.notes == if Captions(rd, vs, v) then Some(Lines(notes)) else v.notes
    ensures StrictlySorted(notes)
    ensures forall x :: x in notes <==> exists w :: w in vs && SameCells(w, v) && w.notes == Some(x)
  {
    hide Key, Keys, Group, SameCells, Less, Consistent, Merge, Coalesce, NoRepeats, StrictlySorted, NoteTexts;
    hide SortUnique;
    var rows := Group(vs, Key(v));
    KeysMembers(vs, Key(v));
    var k: int :| 0 <= k < |Keys(vs)| && Keys(vs)[k] == Key(v);
    MergedAt(rd, vs, included, k);
    MergedSize(rd, vs, included);
    m := Coalesce(rd, vs, included).variables[k];
    SameKey(m, v);
    forall w ensures w in rows <==> w in vs && SameCells(w, v) { InGroup(vs, v, w); }
    SameCellsBack(v, v);
    notes := SortUnique(NoteTexts(rows));
    SortUniqueSorted(NoteTexts(rows));
    if forall w :: w in vs && SameCells(w, v) ==> w == v {
      AloneIs(vs, v);
      MergeOne(rd, v);
    } else {
      var w :| w in vs && SameCells(w, v) && w != v;
      Several(rows, v, w);
      CaptionsAre(rd, vs, v);
      MergeSeveral(rd, rows, v);
    }
  }

  /** The cells of key appear in the list, and first at place a. */
  ghost predicate AppearsFirst(vs: seq<Variable>, key: seq<string>, a: nat) {
    a < |vs| && Key(vs[a]) == key && forall b: nat :: b < a ==> Key(vs[b]) != key
  }

  lemma AppearsLater(front: seq<Variable>, last: Variable, key: seq<string>, a: nat)
    requires AppearsFirst(front, key, a)
    ensures AppearsFirst(front + [last], key, a)
  {
    hide Key;
    assert forall b: nat :: b < |front| ==> (front + [last])[b] == front[b];
  }

  lemma {:induction false} KeyAppears(vs: seq<Variable>, i: nat) returns (a: nat)
    requires i < |Keys(vs)|
    ensures AppearsFirst(vs, Keys(vs)[i], a)
  {
    hide Key;
    var front, last := vs[..|vs| - 1], vs[|vs| - 1];
    assert vs == front + [last];
    if i < |Keys(front)| {
      a := KeyAppears(front, i);
      AppearsLater(front, last, Keys(vs)[i], a);
    } else {
      a := |front|;
      forall c: nat | c < a ensures Key(vs[c]) != Key(last) {
        KeysMembers(front, Key(last));
        assert front[c] in front && vs[c] == front[c];
      }
    }
  }

  lemma {:induction false} KeysInOrder(vs: seq<Variable>, i: nat, j: nat) returns (a: nat, b: nat)
    requires i < j < |Keys(vs)|
    ensures a < b && AppearsFirst(vs, Keys(vs)[i], a) && AppearsFirst(vs, Keys(vs)[j], b)
  {
    hide Key;
    var front, last := vs[..|vs| - 1], vs[|vs| - 1];
    assert vs == front + [last];
    if j < |Keys(front)| {
      a, b := KeysInOrder(front, i, j);
      AppearsLater(front, last, Keys(vs)[i], a);
      AppearsLater(front, last, Keys(vs)[j], b);
    } else {
      a := KeyAppears(front, i);
      b := |front|;
      AppearsLater(front, last, Keys(vs)[i], a);
      forall c: nat | c < b ensures Key(vs[c]) != Key(last) {
        KeysMembers(front, Key(last));
        assert front[c] in front && vs[c] == front[c];
      }
    }
  }

  /** Merged variables stand in the order in which their cells first appear. */
  lemma MergedInOrder(rd: Reading, vs: seq<Variable>, included: map<string, seq<string>>, i: nat, j: nat)
    requires var r := Coalesce(rd, vs, included); r.Merged? && i < j < |r.variables|
    ensures var r := Coalesce(rd, vs, included);
      exists a: nat, b: nat ::
        && a < b < |vs| && SameCells(vs[a], r.variables[i]) && SameCells(vs[b], r.variables[j])
        && (forall c: nat :: c < a ==> !SameCells(vs[c], r.variables[i]))
        && forall c: nat :: c < b ==> !SameCells(vs[c], r.variables[j])
  {
    hide Key, Keys, Group, SameCells, Consistent, Merge, Coalesce;
    MergedSize(rd, vs, included);
    MergedAt(rd, vs, included, i);
    MergedAt(rd, vs, included, j);
    var r := Coalesce(rd, vs, included);
    var a, b := KeysInOrder(vs, i, j);
    forall c: nat | c < |vs|
      ensures Key(vs[c]) == Keys(vs)[i] <==> SameCells(vs[c], r.variables[i])
      ensures Key(vs[c]) == Keys(vs)[j] <==> SameCells(vs[c], r.variables[j])
    {
      SameKey(vs[c], r.variables[i]);
      SameKey(vs[c], r.variables[j]);
    }
  }

  // ---------- the provenance ----------

  ghost predicate ById(s: seq<Variable>) {
    forall i, j :: 0 <= i < j < |s| ==> Less(s[i].id, s[j].id)
  }

  lemma {:induction false} InsertKeepsOrder(v: Variable, s: seq<Variable>)
    requires ById(s) && forall w :: w in s ==> w.id != v.id
    ensures ById(InsertById(v, s))
  {
    hide Less;
    if s != [] {
      LessTotal(v.id, s[0].id);
      if Less(v.id, s[0].id) {
        forall j | 0 <= j < |s| ensures Less(v.id, s[j].id) {
          if j > 0 { LessTransitive(v.id, s[0].id, s[j].id); }
        }
      } else {
        var rest := InsertById(v, s[1..]);
        InsertKeepsOrder(v, s[1..]);
        forall j | 0 <= j < |rest| ensures Less(s[0].id, rest[j].id) {
          assert rest[j] in multiset(rest);
          if rest[j] != v { assert rest[j] in s[1..]; }
        }
      }
    }
  }

  ghost predicate ApartById(s: seq<Variable>) {
    forall i, j :: 0 <= i < j < |s| ==> s[i].id != s[j].id
  }

  lemma {:induction false} SortByIdOrders(s: seq<Variable>)
    requires ApartById(s)
    ensures ById(SortById(s)) && |SortById(s)| == |s|
  {
    assert |multiset(SortById(s))| == |multiset(s)|;
    if s != [] {
      hide Less, InsertById;
      var front, last := s[..|s| - 1], s[|s| - 1];
      SortByIdOrders(front);
      forall w | w in SortById(front) ensures w.id != last.id {
        assert w in multiset(SortById(front));
        assert w in front;
      }
      InsertKeepsOrder(last, SortById(front));
    }
  }

  lemma {:induction false} GroupApart(vs: seq<Variable>, key: seq<string>)
    requires ApartById(vs)
    ensures ApartById(Group(vs, key))
  {
    hide Key;
    if vs != [] {
      var front, last := vs[..|vs| - 1], vs[|vs| - 1];
      GroupApart(front, key);
      forall w | w in Group(front, key) ensures w.id != last.id {
        GroupMembers(front, key, w);
        var i :| 0 <= i < |front| && front[i] == w;
        assert vs[i] == w;
      }
    }
  }

  lemma {:induction false} GroupsKey(rd: Reading, vs: seq<Variable>, keys: seq<seq<string>>, g: AliasGroup)
    requires (forall k :: k in keys ==> Group(vs, k) != []) && g in AllProvenance(rd, vs, keys)
    ensures exists k :: k in keys && g in ProvenanceOf(rd, k, Group(vs, k))
  {
    hide ProvenanceOf, Group;
    var front, last := keys[..|keys| - 1], keys[|keys| - 1];
    if g in AllProvenance(rd, vs, front) { GroupsKey(rd, vs, front, g); }
  }

  lemma FirstIsLeast(rows: seq<Variable>)
    requires rows != [] && ById(SortById(rows)) && |SortById(rows)| == |rows|
    ensures SortById(rows)[0].id == Least(rows).id
  {
    hide Less, Least, SortById;
    var sorted := SortById(rows);
    assert sorted[0] in multiset(sorted) && Least(rows) in multiset(rows);
    LeastIsLeast(rows, sorted[0]);
    var i :| 0 <= i < |sorted| && sorted[i] == Least(rows);
    if i > 0 {
      if Least(rows).id != sorted[0].id {
        LessTransitive(sorted[0].id, sorted[i].id, sorted[0].id);
        LessIrreflexive(sorted[0].id);
      }
    }
  }

  lemma GroupOfKey(rd: Reading, vs: seq<Variable>, included: map<string, seq<string>>, g: AliasGroup)
    returns (v: Variable)
    requires Coalesce(rd, vs, included).Merged? && g in Coalesce(rd, vs, included).groups
    ensures v in vs && Group(vs, Key(v)) != [] && g in ProvenanceOf(rd, Key(v), Group(vs, Key(v)))
    ensures NoRepeats(Ids(vs))
  {
    hide Key, Keys, Group, Coalesce, ProvenanceOf;
    MergedSize(rd, vs, included);
    GroupsOf(rd, vs, included);
    GroupsKey(rd, vs, Keys(vs), g);
    var k :| k in Keys(vs) && g in ProvenanceOf(rd, k, Group(vs, k));
    KeysMembers(vs, k);
    v :| v in vs && Key(v) == k;
  }

  lemma GroupHolds(rd: Reading, key: seq<string>, rows: seq<Variable>, g: AliasGroup)
    requires rows != [] && ApartById(rows) && g in ProvenanceOf(rd, key, rows)
    ensures |g.aliases| > 1 && g.canonical == g.aliases[0].id && ById(g.aliases) && g.cells == key
    ensures g.noteUnion <==> NotesAreCaptions(rd, rows)
    ensures forall w :: w in g.aliases <==> w in rows
  {
    hide Less, NotesAreCaptions, SortById, Least, ById;
    SortByIdOrders(rows);
    FirstIsLeast(rows);
    forall w ensures w in g.aliases <==> w in rows {
      assert w in multiset(SortById(rows)) <==> w in multiset(rows);
    }
  }

  /** A recorded group holds all the variables with one set of cells, more than one, ordered by
      identity; the first stands for them, and the mark says whether their notes are captions. */
  lemma GroupsAre(rd: Reading, vs: seq<Variable>, included: map<string, seq<string>>, g: AliasGroup)
    requires Coalesce(rd, vs, included).Merged? && g in Coalesce(rd, vs, included).groups
    ensures |g.aliases| > 1 && g.canonical == g.aliases[0].id
    ensures forall i, j :: 0 <= i < j < |g.aliases| ==> Less(g.aliases[i].id, g.aliases[j].id)
    ensures exists v ::
      && v in vs && (forall w :: w in g.aliases <==> w in vs && SameCells(w, v))
      && StrictlySorted(g.cells) && (forall c :: c in g.cells <==> c in v.cells)
      && (g.noteUnion <==> Captions(rd, vs, v))
  {
    hide Keys, Group, SameCells, Less, Coalesce, NotesAreCaptions, Captions, ProvenanceOf, StrictlySorted, SortUnique;
    hide NoRepeats;
    var v := GroupOfKey(rd, vs, included, g);
    RepeatedIds(vs);
    GroupApart(vs, Key(v));
    GroupHolds(rd, Key(v), Group(vs, Key(v)), g);
    CaptionsAre(rd, vs, v);
    SortUniqueSorted(v.cells);
    forall w ensures w in g.aliases <==> w in vs && SameCells(w, v) { InGroup(vs, v, w); }
  }

  // ---------- the rows' lists ----------

  lemma {:induction false} FirstsInOrder(s: seq<string>, i: nat, j: nat) returns (a: nat)
    requires i < j < |Firsts(s)|
    ensures a < |s| && s[a] == Firsts(s)[i] && forall c: nat :: c <= a ==> s[c] != Firsts(s)[j]
  {
    var front, last := s[..|s| - 1], s[|s| - 1];
    assert s == front + [last];
    if j < |Firsts(front)| {
      a := FirstsInOrder(front, i, j);
    } else {
      assert Firsts(front)[i] in Elements(front);
      a :| 0 <= a < |front| && front[a] == Firsts(front)[i];
      forall c: nat | c <= a ensures s[c] != last { assert front[c] in Elements(front); }
    }
  }

  /** The identity now named i-th comes from one that stood before all those behind the j-th. */
  ghost predicate ComesFirst(mapping: map<string, string>, ids: seq<string>, list: seq<string>, i: nat, j: nat)
    requires i < |list| && j < |list| && forall y :: y in ids ==> y in mapping
  {
    exists a :: 0 <= a < |ids| && mapping[ids[a]] == list[i] && forall c :: 0 <= c <= a ==> mapping[ids[c]] != list[j]
  }

  lemma ProjectedList(mapping: map<string, string>, included: map<string, seq<string>>, d: string)
    requires Known(mapping, included) && d in included
    ensures var list := Project(mapping, included)[d];
      && NoRepeats(list) && (forall y :: y in included[d] ==> y in mapping)
      && (forall x :: x in list <==> exists y :: y in included[d] && mapping[y] == x)
      && forall i, j :: 0 <= i < j < |list| ==> ComesFirst(mapping, included[d], list, i, j)
  {
    hide Firsts;
    var translated := Translate(mapping, included[d]);
    var list := Project(mapping, included)[d];
    assert list == Firsts(translated);
    forall x ensures x in list <==> exists y :: y in included[d] && mapping[y] == x {
      assert x in list <==> x in Elements(list);
      if x in translated {
        var i :| 0 <= i < |translated| && translated[i] == x;
        assert included[d][i] in included[d];
      }
      if y :| y in included[d] && mapping[y] == x {
        var i :| 0 <= i < |included[d]| && included[d][i] == y;
        assert translated[i] == x;
      }
    }
    forall i, j | 0 <= i < j < |list| ensures ComesFirst(mapping, included[d], list, i, j) {
      var a := FirstsInOrder(translated, i, j);
      forall c | 0 <= c <= a ensures mapping[included[d][c]] != list[j] { assert translated[c] != list[j]; }
      assert translated[a] == list[i];
    }
  }

  /** Every row stays in the table. Its list names, each once and in the order in which they first
      stood there, the identities that now stand for those it named. */
  lemma ListsAre(rd: Reading, vs: seq<Variable>, included: map<string, seq<string>>, d: string)
    requires Coalesce(rd, vs, included).Merged?
    ensures var r := Coalesce(rd, vs, included);
      && (d in r.included <==> d in included)
      && (d in included ==>
        && NoRepeats(r.included[d])
        && (forall y :: y in included[d] ==> y in r.mapping)
        && (forall x :: x in r.included[d] <==> exists y :: y in included[d] && r.mapping[y] == x)
        && forall i, j :: 0 <= i < j < |r.included[d]| ==>
          ComesFirst(r.mapping, included[d], r.included[d], i, j))
  {
    hide Coalesce;
    MergedSize(rd, vs, included);
    var r := Coalesce(rd, vs, included);
    if d in included {
      ProjectedList(r.mapping, included, d);
    }
  }
}
