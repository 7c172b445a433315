/** Calculation levels of cells: longest paths over the graph in which operator and constant nodes
    stand for the cell that owns them. Cells behind a circular reference are left over and placed
    below their acyclic precedents. */
module CellLevels {
  import opened Digraphs

  type Links = set<(string, string)>

  /** Operator and constant nodes are inner; an inner node without an owner stands for itself. */
  datatype Vertex = Vertex(inner: bool, owner: string)

  function OwnerOf(nodes: map<string, Vertex>, id: string): (r: string) {
    if id in nodes && nodes[id].inner && nodes[id].owner != "" then nodes[id].owner else id
  }

  function Real(nodes: map<string, Vertex>): (r: set<string>) {
    set id | id in nodes && !nodes[id].inner
  }

  predicate IsLink(nodes: map<string, Vertex>, u: string, v: string) { u != v && u in Real(nodes) && v in Real(nodes) }

  function LinkOf(nodes: map<string, Vertex>, e: (string, string)): (r: (string, string)) {
    (OwnerOf(nodes, e.0), OwnerOf(nodes, e.1))
  }

  /** The owner-collapsed graph. */
  function Projection(nodes: map<string, Vertex>, edges: seq<(string, string)>): (r: Links) {
    set e | e in edges && IsLink(nodes, LinkOf(nodes, e).0, LinkOf(nodes, e).1) :: LinkOf(nodes, e)
  }

  /** The cell an end of an edge stands for: an operator's or constant's owner, if it has one. */
  ghost predicate StandsFor(nodes: map<string, Vertex>, end: string, cell: string) {
    (if end in nodes && nodes[end].inner && nodes[end].owner != "" then nodes[end].owner else end) == cell
  }

  /** Two cells are linked exactly when they differ, both are nodes that are neither operators nor
      constants, and the ends of some edge stand for them. */
  lemma ProjectionHas(nodes: map<string, Vertex>, edges: seq<(string, string)>, u: string, v: string)
    ensures (u, v) in Projection(nodes, edges) <==>
      && u != v && u in nodes && !nodes[u].inner && v in nodes && !nodes[v].inner
      && exists e :: e in edges && StandsFor(nodes, e.0, u) && StandsFor(nodes, e.1, v)
  {
    if (u, v) in Projection(nodes, edges) {
      var e :| e in edges && IsLink(nodes, LinkOf(nodes, e).0, LinkOf(nodes, e).1) && LinkOf(nodes, e) == (u, v);
      assert StandsFor(nodes, e.0, u) && StandsFor(nodes, e.1, v);
    }
    if u != v && u in nodes && !nodes[u].inner && v in nodes && !nodes[v].inner
      && exists e :: e in edges && StandsFor(nodes, e.0, u) && StandsFor(nodes, e.1, v)
    {
      var e :| e in edges && StandsFor(nodes, e.0, u) && StandsFor(nodes, e.1, v);
      assert LinkOf(nodes, e) == (u, v);
    }
  }

  function Ins(links: Links, v: string): (r: set<string>) { set e | e in links && e.1 == v :: e.0 }

  function Succ(links: Links, u: string): (r: set<string>) { set e | e in links && e.0 == u :: e.1 }

  ghost predicate Within(links: Links, places: set<string>) {
    forall u, v :: (u, v) in links ==> u in places && v in places && u != v
  }

  // ---------- successor sets and in-degrees ----------

  function SuccOf(succ: map<string, set<string>>, u: string): (r: set<string>) { if u in succ then succ[u] else {} }

  ghost predicate Tables(links: Links, places: set<string>, succ: map<string, set<string>>, indeg: map<string, nat>) {
    && indeg.Keys == places
    && (forall u :: SuccOf(succ, u) == Succ(links, u))
    && forall v :: v in places ==> indeg[v] == |Ins(links, v)|
  }

  lemma SuccIs(links: Links, u: string, v: string)
    ensures v in Succ(links, u) <==> (u, v) in links
  {
    if v in Succ(links, u) {
      var e :| e in links && e.0 == u && e.1 == v;
      assert e == (u, v);
    }
  }

  lemma InsIs(links: Links, u: string, v: string)
    ensures u in Ins(links, v) <==> (u, v) in links
  {
    if u in Ins(links, v) {
      var e :| e in links && e.1 == v && e.0 == u;
      assert e == (u, v);
    }
  }

  lemma AddLink(links: Links, u: string, v: string)
    requires (u, v) !in links
    ensures forall x :: Succ(links + {(u, v)}, x) == if x == u then Succ(links, u) + {v} else Succ(links, x)
    ensures forall y :: Ins(links + {(u, v)}, y) == if y == v then Ins(links, v) + {u} else Ins(links, y)
    ensures u !in Ins(links, v) && v !in Succ(links, u)
  {
    var more := links + {(u, v)};
    forall x ensures Succ(more, x) == if x == u then Succ(links, u) + {v} else Succ(links, x) {
      forall y ensures y in Succ(more, x) <==> (x, y) in more { SuccIs(more, x, y); }
      forall y ensures y in Succ(links, x) <==> (x, y) in links { SuccIs(links, x, y); }
    }
    forall y ensures Ins(more, y) == if y == v then Ins(links, v) + {u} else Ins(links, y) {
      forall x ensures x in Ins(more, y) <==> (x, y) in more { InsIs(more, x, y); }
      forall x ensures x in Ins(links, y) <==> (x, y) in links { InsIs(links, x, y); }
    }
    InsIs(links, u, v);
    SuccIs(links, u, v);
  }

  lemma TablesStart(nodes: map<string, Vertex>, edges: seq<(string, string)>, places: set<string>,
                    succ: map<string, set<string>>, indeg: map<string, nat>)
    requires succ == map[] && indeg.Keys == places && forall v :: v in places ==> indeg[v] == 0
    ensures Tables(Projection(nodes, edges[..0]), places, succ, indeg)
  {
    assert Projection(nodes, edges[..0]) == {};
  }

  lemma PutSucc(was: map<string, set<string>>, u: string, v: string)
    ensures forall x ::
      SuccOf(was[u := SuccOf(was, u) + {v}], x) == if x == u then SuccOf(was, u) + {v} else SuccOf(was, x)
  {
  }

  lemma TablesStep(links: Links, places: set<string>, succ: map<string, set<string>>, indeg: map<string, nat>,
                   u: string, v: string)
    requires Tables(links, places, succ, indeg) && (u, v) !in links && v in places
    ensures Tables(links + {(u, v)}, places, succ[u := SuccOf(succ, u) + {v}], indeg[v := indeg[v] + 1])
  {
    hide Ins, Succ, SuccOf;
    AddLink(links, u, v);
    PutSucc(succ, u, v);
  }

  lemma ProjectionStep(nodes: map<string, Vertex>, edges: seq<(string, string)>, i: nat)
    requires i < |edges|
    ensures var l := LinkOf(nodes, edges[i]);
      Projection(nodes, edges[..i + 1])
        == Projection(nodes, edges[..i]) + (if IsLink(nodes, l.0, l.1) then {(l.0, l.1)} else {})
  {
    hide LinkOf, IsLink;
    assert edges[..i + 1] == edges[..i] + [edges[i]];
    var l := LinkOf(nodes, edges[i]);
    assert l == (l.0, l.1);
  }

  lemma TablesParts(links: Links, places: set<string>, succ: map<string, set<string>>, indeg: map<string, nat>)
    requires Tables(links, places, succ, indeg)
    ensures indeg.Keys == places && (forall u :: SuccOf(succ, u) == Succ(links, u))
    ensures forall v :: v in places ==> indeg[v] == |Ins(links, v)|
  {
  }

  method BuildTables(nodes: map<string, Vertex>, edges: seq<(string, string)>)
    returns (places: set<string>, succ: map<string, set<string>>, indeg: map<string, nat>)
    ensures places == Real(nodes)
    ensures Tables(Projection(nodes, edges), places, succ, indeg)
  {
    hide LinkOf, Projection, SuccOf, Tables, Real;
    places := Real(nodes);
    succ := map[];
    indeg := map id | id in places :: 0;
    var i := 0;
    TablesStart(nodes, edges, places, succ, indeg);
    while i < |edges|
      invariant 0 <= i <= |edges|
      invariant Tables(Projection(nodes, edges[..i]), places, succ, indeg)
    {
      var (u, v) := LinkOf(nodes, edges[i]);
      ghost var before := Projection(nodes, edges[..i]);
      ProjectionStep(nodes, edges, i);
      if IsLink(nodes, u, v) {
        SuccIs(before, u, v);
        TablesParts(before, places, succ, indeg);
        if v !in SuccOf(succ, u) {
          TablesStep(before, places, succ, indeg, u, v);
          succ := succ[u := SuccOf(succ, u) + {v}];
          indeg := indeg[v := indeg[v] + 1];
        } else {
          assert before + {(u, v)} == before;
        }
      } else {
        assert before + {} == before;
      }
      i := i + 1;
    }
    assert edges[..|edges|] == edges;
  }

  // ---------- the sweep ----------

  /** A node is free once all its incoming links are used. */
  ghost predicate Counted(links: Links, places: set<string>, indeg: map<string, nat>, used: Links, free: set<string>) {
    && indeg.Keys == places && free <= places && used <= links
    && (forall v :: v in places ==> indeg[v] == |Ins(links - used, v)|)
    && forall v :: v in places ==> (v in free <==> Ins(links - used, v) == {})
  }

  /** Used links climb, and each positive level is one above the level a used link comes from. */
  ghost predicate Climbs(places: set<string>, level: map<string, nat>, used: Links, free: set<string>) {
    && level.Keys == places
    && (forall e :: e in used ==> e.0 in free && e.0 in places && e.1 in places && level[e.1] >= level[e.0] + 1)
    && forall v :: v in places && level[v] > 0 ==> exists u :: (u, v) in used && u in places && level[v] == level[u] + 1
  }

  ghost predicate Swept(links: Links, places: set<string>, indeg: map<string, nat>, level: map<string, nat>,
                        used: Links, free: set<string>) {
    Counted(links, places, indeg, used, free) && Climbs(places, level, used, free)
  }

  lemma UseLink(links: Links, used: Links, x: string, v: string)
    requires (x, v) in links && (x, v) !in used
    ensures forall y ::
      Ins(links - (used + {(x, v)}), y) == if y == v then Ins(links - used, v) - {x} else Ins(links - used, y)
    ensures x in Ins(links - used, v)
  {
    var before, after := links - used, links - (used + {(x, v)});
    forall y ensures Ins(after, y) == if y == v then Ins(before, v) - {x} else Ins(before, y) {
      forall u ensures u in Ins(after, y) <==> (u, y) in after { InsIs(after, u, y); }
      forall u ensures u in Ins(before, y) <==> (u, y) in before { InsIs(before, u, y); }
    }
    InsIs(before, x, v);
  }

  function Raised(level: map<string, nat>, x: string, v: string): (r: map<string, nat>)
    requires x in level && v in level
  {
    if level[v] < level[x] + 1 then level[v := level[x] + 1] else level
  }

  lemma CountStep(links: Links, places: set<string>, indeg: map<string, nat>, used: Links, free: set<string>, x: string,
                  v: string)
    requires Counted(links, places, indeg, used, free) && (x, v) in links && (x, v) !in used && v in places
    ensures v !in free && indeg[v] > 0
    ensures Counted(links, places, indeg[v := indeg[v] - 1], used + {(x, v)},
            if indeg[v] == 1 then free + {v} else free)
  {
    hide Ins;
    UseLink(links, used, x, v);
    var ins := Ins(links - used, v);
    assert ins == (ins - {x}) + {x};
  }

  lemma RaisedIs(level: map<string, nat>, x: string, v: string)
    requires x in level && v in level
    ensures var up := Raised(level, x, v);
      && up.Keys == level.Keys && (forall y :: y in level && y != v ==> up[y] == level[y])
      && up[v] == if level[v] < level[x] + 1 then level[x] + 1 else level[v]
  {
  }

  lemma ClimbUsed(places: set<string>, level: map<string, nat>, up: map<string, nat>, used: Links, free: set<string>,
                  x: string, v: string)
    requires Climbs(places, level, used, free) && x in free && x in places && v in places && v !in free
    requires up.Keys == places && (forall y :: y in level && y != v ==> up[y] == level[y]) && up[v] >= level[v]
    requires up[v] >= level[x] + 1
    ensures forall e :: e in used + {(x, v)} ==> e.0 in free && e.0 in places && e.1 in places && up[e.1] >= up[e.0] + 1
  {
    forall e | e in used + {(x, v)} ensures e.0 in free && e.0 in places && e.1 in places && up[e.1] >= up[e.0] + 1 {
      assert e.0 != v;
    }
  }

  lemma ClimbFrom(places: set<string>, level: map<string, nat>, up: map<string, nat>, used: Links, free: set<string>,
                  x: string, v: string)
    requires Climbs(places, level, used, free) && x in free && x in places && v in places && v !in free
    requires up.Keys == places && forall y :: y in level && y != v ==> up[y] == level[y]
    requires up[v] == if level[v] < level[x] + 1 then level[x] + 1 else level[v]
    ensures forall y :: y in places && up[y] > 0 ==>
        exists u :: (u, y) in used + {(x, v)} && u in places && up[y] == up[u] + 1
  {
    var more := used + {(x, v)};
    forall y | y in places && up[y] > 0 ensures exists u :: (u, y) in more && u in places && up[y] == up[u] + 1 {
      if y == v && level[v] < level[x] + 1 {
        assert (x, v) in more;
      } else {
        var u :| (u, y) in used && u in places && level[y] == level[u] + 1;
        assert (u, y).0 != v;
        assert (u, y) in more;
      }
    }
  }

  lemma ClimbStep(places: set<string>, level: map<string, nat>, used: Links, free: set<string>, x: string, v: string)
    requires Climbs(places, level, used, free) && x in free && x in places && v in places && v !in free
    ensures Climbs(places, Raised(level, x, v), used + {(x, v)}, free)
  {
    RaisedIs(level, x, v);
    hide Raised;
    ClimbUsed(places, level, Raised(level, x, v), used, free, x, v);
    ClimbFrom(places, level, Raised(level, x, v), used, free, x, v);
  }

  lemma ClimbWiden(places: set<string>, level: map<string, nat>, used: Links, free: set<string>, more: set<string>)
    requires Climbs(places, level, used, free) && free <= more
    ensures Climbs(places, level, used, more)
  {
  }

  lemma SweptFree(links: Links, places: set<string>, indeg: map<string, nat>, level: map<string, nat>, used: Links,
                  free: set<string>)
    requires Swept(links, places, indeg, level, used, free)
    ensures free <= places && indeg.Keys == places && level.Keys == places
  {
  }

  lemma FollowLink(links: Links, places: set<string>, indeg: map<string, nat>, level: map<string, nat>, used: Links,
                   free: set<string>, x: string, v: string)
    requires Within(links, places) && Swept(links, places, indeg, level, used, free)
    requires x in free && (x, v) in links && (x, v) !in used
    ensures v in places && x in places && v !in free && indeg.Keys == places && level.Keys == places && indeg[v] > 0
    ensures Swept(links, places, indeg[v := indeg[v] - 1], Raised(level, x, v), used + {(x, v)},
            if indeg[v] == 1 then free + {v} else free)
  {
    hide Climbs, Counted;
    assert v in places && x in places;
    CountStep(links, places, indeg, used, free, x, v);
    SweptFree(links, places, indeg, level, used, free);
    ClimbStep(places, level, used, free, x, v);
    ClimbWiden(places, Raised(level, x, v), used + {(x, v)}, free, if indeg[v] == 1 then free + {v} else free);
  }

  function Elements(s: seq<string>): (r: set<string>) { set x | x in s }

  predicate NoRepeats(s: seq<string>) { forall i, j :: 0 <= i < j < |s| ==> s[i] != s[j] }

  /** Before a node is taken from the queue, the links used are those leaving finished nodes. */
  ghost predicate Between(links: Links, used: Links, free: set<string>, done: set<string>, queue: seq<string>) {
    && NoRepeats(queue)
    && done !! Elements(queue)
    && free == done + Elements(queue)
    && used == (set e | e in links && e.0 in done)
  }

  /** While the links of x are followed, `rest` are the targets still to come. */
  ghost predicate During(links: Links, used: Links, done: set<string>, x: string, rest: set<string>) {
    forall e :: e in used <==> e in links && (e.0 in done || (e.0 == x && e.1 !in rest))
  }

  lemma DuringStep(links: Links, used: Links, done: set<string>, x: string, rest: set<string>, v: string)
    requires During(links, used, done, x, rest) && v in rest && x !in done && (x, v) in links
    ensures (x, v) !in used && During(links, used + {(x, v)}, done, x, rest - {v})
  {
    forall e | e in links && e.0 == x && e.1 == v ensures e == (x, v) {}
  }

  ghost predicate Queued(queue: seq<string>, done: set<string>) { NoRepeats(queue) && done !! Elements(queue) }

  lemma Enqueue(queue: seq<string>, v: string, done: set<string>)
    requires Queued(queue, done) && v !in Elements(queue) && v !in done
    ensures Queued(queue + [v], done) && Elements(queue + [v]) == Elements(queue) + {v}
  {
  }

  method Follow(links: Links, places: set<string>, succ: map<string, set<string>>, indeg0: map<string, nat>,
                level0: map<string, nat>,
                ghost done: set<string>, ghost used0: Links, x: string, queue0: seq<string>)
    returns (indeg: map<string, nat>, level: map<string, nat>, queue: seq<string>, ghost used: Links)
    requires Within(links, places) && (forall u :: SuccOf(succ, u) == Succ(links, u))
    requires x !in done && During(links, used0, done, x, Succ(links, x)) && Queued(queue0, done + {x})
    requires Swept(links, places, indeg0, level0, used0, done + {x} + Elements(queue0))
    ensures During(links, used, done, x, {}) && Queued(queue, done + {x})
    ensures Swept(links, places, indeg, level, used, done + {x} + Elements(queue))
  {
    hide Swept, Queued, Succ, SuccOf, During, Within, Elements, Raised;
    indeg, level, queue, used := indeg0, level0, queue0, used0;
    var rest := SuccOf(succ, x);
    while rest != {}
      invariant rest <= Succ(links, x) && During(links, used, done, x, rest)
      invariant Queued(queue, done + {x})
      invariant Swept(links, places, indeg, level, used, done + {x} + Elements(queue))
      decreases |rest|
    {
      var v :| v in rest;
      SuccIs(links, x, v);
      DuringStep(links, used, done, x, rest, v);
      ghost var free := done + {x} + Elements(queue);
      FollowLink(links, places, indeg, level, used, free, x, v);
      level := Raised(level, x, v);
      used := used + {(x, v)};
      if indeg[v] == 1 {
        Enqueue(queue, v, done + {x});
        queue := queue + [v];
        assert done + {x} + Elements(queue) == free + {v};
      }
      indeg := indeg[v := indeg[v] - 1];
      rest := rest - {v};
    }
  }

  lemma TailFresh(s: seq<string>)
    requires s != [] && NoRepeats(s)
    ensures s[0] !in s[1..]
  {
  }

  lemma NoRepeatsTail(s: seq<string>)
    requires s != [] && NoRepeats(s)
    ensures NoRepeats(s[1..])
  {
  }

  /** Taking the first node of the queue. */
  lemma TakeFirst(links: Links, used: Links, done: set<string>, queue: seq<string>)
    requires queue != [] && Between(links, used, done + Elements(queue), done, queue)
    ensures var x := queue[0];
      && x !in done && During(links, used, done, x, Succ(links, x)) && Queued(queue[1..], done + {x})
      && done + Elements(queue) == done + {x} + Elements(queue[1..])
  {
    var x := queue[0];
    assert queue == [x] + queue[1..];
    assert x in Elements(queue);
    TailFresh(queue);
    NoRepeatsTail(queue);
    forall e | e in links && e.0 == x ensures e.1 in Succ(links, x) {}
  }

  lemma TookFirst(links: Links, used: Links, done: set<string>, x: string, queue: seq<string>)
    requires During(links, used, done, x, {}) && Queued(queue, done + {x})
    ensures Between(links, used, done + {x} + Elements(queue), done + {x}, queue)
  {
  }

  // ---------- what the sweep has found when the queue is empty ----------

  /** The longest walk into v has n links. */
  ghost predicate LongestInto(links: Links, v: string, n: nat) {
    (exists w :: IsWalk(links, w) && w[|w| - 1] == v && |w| == n + 1)
    && forall w :: IsWalk(links, w) && w[|w| - 1] == v ==> |w| <= n + 1
  }

  ghost predicate BehindCycle(links: Links, v: string) {
    exists u :: OnCycle(links, u) && Reaches(links, u, v)
  }

  /** The finished state: links used are those that leave the free nodes. */
  ghost predicate Finished(links: Links, places: set<string>, indeg: map<string, nat>, level: map<string, nat>,
                           free: set<string>) {
    Within(links, places) && Swept(links, places, indeg, level, (set e | e in links && e.0 in free), free)
  }

  lemma PrecedentsAreFree(links: Links, places: set<string>, indeg: map<string, nat>, level: map<string, nat>,
                          free: set<string>, u: string, v: string)
    requires Finished(links, places, indeg, level, free) && (u, v) in links && v in free
    ensures u in free && u in places && v in places && level[v] >= level[u] + 1
  {
    var used := set e | e in links && e.0 in free;
    InsIs(links - used, u, v);
  }

  lemma {:induction false} WalkIsFree(links: Links, places: set<string>, indeg: map<string, nat>,
                                      level: map<string, nat>, free: set<string>, w: seq<string>)
    requires Finished(links, places, indeg, level, free) && IsWalk(links, w) && w[|w| - 1] in free && free <= places
    requires level.Keys == places
    ensures w[0] in free && level[w[|w| - 1]] >= level[w[0]] + |w| - 1
    decreases |w|
  {
    hide Finished;
    if |w| > 1 {
      var rest := w[1..];
      forall i | 0 <= i < |rest| - 1 ensures (rest[i], rest[i + 1]) in links {
        assert (w[i + 1], w[i + 1 + 1]) in links;
      }
      WalkIsFree(links, places, indeg, level, free, rest);
      assert (w[0], w[0 + 1]) in links;
      PrecedentsAreFree(links, places, indeg, level, free, w[0], rest[0]);
    }
  }

  lemma LevelWitness(links: Links, places: set<string>, indeg: map<string, nat>, level: map<string, nat>,
                     free: set<string>, v: string) returns (u: string)
    requires Finished(links, places, indeg, level, free) && v in places && level.Keys == places && level[v] > 0
    ensures u in places && (u, v) in links && level[v] == level[u] + 1
  {
    hide Counted, Within;
    u :| (u, v) in links && u in places && level[v] == level[u] + 1;
  }

  lemma {:induction false} WalkOfLevel(links: Links, places: set<string>, indeg: map<string, nat>,
                                       level: map<string, nat>, free: set<string>, v: string) returns (w: seq<string>)
    requires Finished(links, places, indeg, level, free) && v in places && level.Keys == places
    ensures IsWalk(links, w) && w[|w| - 1] == v && |w| == level[v] + 1
    decreases level[v]
  {
    hide Finished;
    if level[v] == 0 {
      w := [v];
    } else {
      var u := LevelWitness(links, places, indeg, level, free, v);
      var front := WalkOfLevel(links, places, indeg, level, free, u);
      w := front + [v];
      forall i | 0 <= i < |w| - 1 ensures (w[i], w[i + 1]) in links {
        if i < |front| - 1 { assert (front[i], front[i + 1]) in links; }
      }
    }
  }

  /** The level of a free node is the length of the longest walk into it. */
  lemma FreeLevelIsLongest(links: Links, places: set<string>, indeg: map<string, nat>, level: map<string, nat>,
                           free: set<string>, v: string)
    requires Finished(links, places, indeg, level, free) && v in free && free <= places && level.Keys == places
    ensures LongestInto(links, v, level[v])
  {
    hide Finished;
    var w := WalkOfLevel(links, places, indeg, level, free, v);
    forall w' | IsWalk(links, w') && w'[|w'| - 1] == v ensures |w'| <= level[v] + 1 {
      WalkIsFree(links, places, indeg, level, free, w');
    }
  }

  lemma FreeIsNotBehind(links: Links, places: set<string>, indeg: map<string, nat>, level: map<string, nat>,
                        free: set<string>, v: string)
    requires Finished(links, places, indeg, level, free) && v in free && free <= places && level.Keys == places
    ensures !BehindCycle(links, v)
  {
    hide Finished;
    if u :| OnCycle(links, u) && Reaches(links, u, v) {
      var p :| WalkFromTo(links, p, u, v);
      WalkIsFree(links, places, indeg, level, free, p);
      var x :| (u, x) in links && Reaches(links, x, u);
      var q :| WalkFromTo(links, q, x, u);
      WalkIsFree(links, places, indeg, level, free, q);
      PrecedentsAreFree(links, places, indeg, level, free, u, x);
    }
  }

  /** Every node that is left has a precedent that is left. */
  lemma LeftHasLeft(links: Links, places: set<string>, indeg: map<string, nat>, level: map<string, nat>,
                    free: set<string>, v: string) returns (u: string)
    requires Finished(links, places, indeg, level, free) && v in places - free
    ensures u in places - free && (u, v) in links
  {
    var used := set e | e in links && e.0 in free;
    u :| u in Ins(links - used, v);
    InsIs(links - used, u, v);
  }

  lemma Shrinks<T>(a: set<T>, b: set<T>)
    requires a < b
    ensures |a| < |b|
  {
    assert b == a + (b - a);
    assert b - a != {};
  }

  /** Walking backwards among the left nodes ends on a cycle: `seen` is the walk so far, from x to v. */
  lemma {:induction false} LeftIsBehind(links: Links, places: set<string>, indeg: map<string, nat>,
                                         level: map<string, nat>, free: set<string>, x: string, v: string,
                                         seen: set<string>)
    requires Finished(links, places, indeg, level, free) && x in places - free && x in seen && seen <= places
    requires Reaches(links, x, v)
    requires forall s :: s in seen ==> Reaches(links, x, s)
    ensures BehindCycle(links, v)
    decreases |places - seen|
  {
    hide Finished, Reaches;
    var u := LeftHasLeft(links, places, indeg, level, free, x);
    ReachesEdge(links, u, x);
    ReachesTransitive(links, u, x, v);
    if u in seen {
      assert OnCycle(links, u);
    } else {
      forall s | s in seen + {u} ensures Reaches(links, u, s) {
        if s == u { ReachesSelf(links, u); } else { ReachesTransitive(links, u, x, s); }
      }
      assert places - (seen + {u}) < places - seen by { assert u in places - seen; }
      Shrinks(places - (seen + {u}), places - seen);
      LeftIsBehind(links, places, indeg, level, free, u, v, seen + {u});
    }
  }

  lemma LeftCount(links: Links, places: set<string>, indeg: map<string, nat>, level: map<string, nat>,
                  free: set<string>, v: string)
    requires Finished(links, places, indeg, level, free) && v in places && indeg.Keys == places
    ensures v in places - free <==> indeg[v] > 0
  {
  }

  /** The nodes left over are exactly those that a directed cycle leads to. */
  lemma LeftIffBehind(links: Links, places: set<string>, indeg: map<string, nat>, level: map<string, nat>,
                      free: set<string>, v: string)
    requires Finished(links, places, indeg, level, free) && v in places && free <= places && level.Keys == places
    requires indeg.Keys == places
    ensures v in places - free <==> BehindCycle(links, v)
    ensures v in places - free <==> indeg[v] > 0
  {
    if v in free {
      hide Finished;
      FreeIsNotBehind(links, places, indeg, level, free, v);
    } else {
      ReachesSelf(links, v);
      LeftIsBehind(links, places, indeg, level, free, v, v, {v});
    }
    LeftCount(links, places, indeg, level, free, v);
  }

  // ---------- the relaxation passes ----------

  /** Only cyclic nodes moved, and only upwards. */
  ghost predicate Relaxed(before: map<string, nat>, after: map<string, nat>, cyclic: set<string>) {
    after.Keys == before.Keys
      && forall v :: v in before ==> after[v] >= before[v] && (v !in cyclic ==> after[v] == before[v])
  }

  lemma WithinEnds(links: Links, places: set<string>, x: string)
    requires Within(links, places)
    ensures forall v :: (x, v) in links ==> v in places
  {
  }

  lemma Fewer(a: set<string>, b: set<string>)
    requires a <= b
    ensures |a| <= |b|
  {
    if a != b { Shrinks(a, b); }
  }

  ghost predicate Below(level: map<string, nat>, b: int) { forall v :: v in level ==> level[v] <= b }

  ghost predicate AcyclicBelow(level: map<string, nat>, cyclic: set<string>, b: int) {
    forall u :: u in level && u !in cyclic ==> level[u] < b
  }

  /** The links into cyclic nodes that have been followed climb from where they started. */
  ghost predicate Climbed(links: Links, before: map<string, nat>, after: map<string, nat>, cyclic: set<string>,
                          done: set<string>) {
    forall u, v :: (u, v) in links && v in cyclic && u in done && u in before && v in after ==> after[v] > before[u]
  }

  method RelaxFrom(links: Links, places: set<string>, succ: map<string, set<string>>, cyclic: set<string>,
                   level0: map<string, nat>, x: string)
    returns (level: map<string, nat>, moved: bool)
    requires Within(links, places) && (forall u :: SuccOf(succ, u) == Succ(links, u))
    requires level0.Keys == places && x in places
    ensures Relaxed(level0, level, cyclic)
    ensures forall v :: (x, v) in links && v in cyclic ==> level[v] > level0[x]
    ensures !moved ==> level == level0
    ensures forall b :: Below(level0, b) && level0[x] < b ==> Below(level, b)
    ensures forall b :: Below(level0, b) ==> Below(level, b + 1)
  {
    level, moved := level0, false;
    var rest := SuccOf(succ, x);
    forall v ensures v in rest <==> (x, v) in links { SuccIs(links, x, v); }
    ghost var all := rest;
    while rest != {}
      invariant rest <= all
      invariant Relaxed(level0, level, cyclic) && level[x] == level0[x]
      invariant forall v :: (x, v) in links && v in cyclic && v !in rest ==> level[v] > level0[x]
      invariant !moved ==> level == level0
      invariant forall b :: Below(level0, b) && level0[x] < b ==> Below(level, b)
      invariant forall b :: Below(level0, b) ==> Below(level, b + 1)
      decreases |rest|
    {
      var v :| v in rest;
      assert (x, v) in links;
      if v in cyclic && level[v] < level[x] + 1 {
        level := level[v := level[x] + 1];
        moved := true;
      }
      rest := rest - {v};
    }
  }

  lemma ClimbedMore(links: Links, before: map<string, nat>, middle: map<string, nat>, after: map<string, nat>,
                    cyclic: set<string>, done: set<string>, x: string)
    requires Climbed(links, before, middle, cyclic, done) && Relaxed(before, middle, cyclic)
    requires Relaxed(middle, after, cyclic) && x in before
    requires forall v :: (x, v) in links && v in cyclic ==> v in after && after[v] > middle[x]
    ensures Climbed(links, before, after, cyclic, done + {x})
  {
  }

  method RelaxOnce(links: Links, places: set<string>, succ: map<string, set<string>>, cyclic: set<string>,
                   level0: map<string, nat>)
    returns (level: map<string, nat>, moved: bool)
    requires Within(links, places) && (forall u :: SuccOf(succ, u) == Succ(links, u)) && level0.Keys == places
    ensures Relaxed(level0, level, cyclic)
    ensures Climbed(links, level0, level, cyclic, places)
    ensures !moved ==> level == level0
    ensures forall b :: Below(level0, b) && AcyclicBelow(level0, cyclic, b) ==> Below(level, b + |cyclic|)
  {
    level, moved := level0, false;
    var rest := places;
    ghost var turned: set<string> := {};
    while rest != {}
      invariant rest <= places && turned <= cyclic && turned !! rest
      invariant Relaxed(level0, level, cyclic)
      invariant Climbed(links, level0, level, cyclic, places - rest)
      invariant !moved ==> level == level0
      invariant forall b :: Below(level0, b) && AcyclicBelow(level0, cyclic, b) ==> Below(level, b + |turned|)
      decreases |rest|
    {
      hide Succ, SuccOf, Below, Climbed, Within;
      var x :| x in rest;
      var step;
      ghost var middle := level;
      level, step := RelaxFrom(links, places, succ, cyclic, level, x);
      WithinEnds(links, places, x);
      ClimbedMore(links, level0, middle, level, cyclic, places - rest, x);
      assert places - rest + {x} == places - (rest - {x});
      moved := moved || step;
      rest := rest - {x};
      if x in cyclic { turned := turned + {x}; }
    }
    Fewer(turned, cyclic);
    assert places - rest == places;
    forall b | Below(level0, b) && AcyclicBelow(level0, cyclic, b) ensures Below(level, b + |cyclic|) {
      assert Below(level, b + |turned|);
    }
  }

  // ---------- the whole computation ----------

  ghost predicate LevelsAreRight(links: Links, places: set<string>, level: map<string, nat>, cyclic: set<string>) {
    && level.Keys == places
    && (forall v :: v in cyclic <==> v in places && BehindCycle(links, v))
    && (forall v :: v in places && v !in cyclic ==> LongestInto(links, v, level[v]))
    && forall u, v :: (u, v) in links && u !in cyclic && v in cyclic ==>
      u in places && v in places && level[v] > level[u]
  }

  /** The queue holds the nodes without precedents, in any order. */
  method Sources(places: set<string>, indeg: map<string, nat>) returns (queue: seq<string>)
    requires indeg.Keys == places
    ensures NoRepeats(queue) && forall v :: v in queue <==> v in places && indeg[v] == 0
  {
    queue := [];
    var rest := places;
    while rest != {}
      invariant rest <= places
      invariant NoRepeats(queue) && forall v :: v in queue <==> v in places && v !in rest && indeg[v] == 0
      decreases |rest|
    {
      var v :| v in rest;
      if indeg[v] == 0 { queue := queue + [v]; }
      rest := rest - {v};
    }
  }

  lemma StartsSwept(links: Links, places: set<string>, indeg: map<string, nat>, level: map<string, nat>,
                    queue: seq<string>)
    requires Within(links, places) && indeg.Keys == places && level.Keys == places
    requires forall v :: v in places ==> indeg[v] == |Ins(links, v)| && level[v] == 0
    requires NoRepeats(queue) && forall v :: v in queue <==> v in places && indeg[v] == 0
    ensures Swept(links, places, indeg, level, {}, Elements(queue)) && Between(links, {}, Elements(queue), {}, queue)
  {
    assert links - {} == links;
  }

  lemma ProjectionWithin(nodes: map<string, Vertex>, edges: seq<(string, string)>)
    ensures Within(Projection(nodes, edges), Real(nodes))
  {
  }

  lemma FinishedWithin(links: Links, places: set<string>, indeg: map<string, nat>, level: map<string, nat>,
                       free: set<string>)
    requires Finished(links, places, indeg, level, free)
    ensures Within(links, places)
  {
  }

  lemma BehindIsPlace(links: Links, places: set<string>, v: string)
    requires Within(links, places) && BehindCycle(links, v)
    ensures v in places
  {
    var u :| OnCycle(links, u) && Reaches(links, u, v);
    var x :| (u, x) in links && Reaches(links, x, u);
    ReachesStaysInClosed(links, places, u, v);
  }

  /** Up to n links into cyclic nodes lift the level they end at by as many above the one they start
      from, which counts as 0 if it is cyclic itself. */
  ghost predicate Lifted(links: Links, level: map<string, nat>, cyclic: set<string>, n: nat) {
    forall w ::
      && IsWalk(links, w) && |w| <= n + 1 && (forall i :: 0 <= i < |w| ==> w[i] in level)
      && (forall i :: 1 <= i < |w| ==> w[i] in cyclic) ==>
        level[w[|w| - 1]] >= (if w[0] in cyclic then 0 else level[w[0]]) + |w| - 1
  }

  lemma LiftedOnce(links: Links, before: map<string, nat>, after: map<string, nat>, cyclic: set<string>,
                   places: set<string>, n: nat)
    requires Relaxed(before, after, cyclic) && before.Keys == places && Climbed(links, before, after, cyclic, places)
    requires Lifted(links, before, cyclic, n)
    ensures Lifted(links, after, cyclic, n + 1)
  {
    forall w | IsWalk(links, w) && |w| <= n + 2 && (forall i :: 0 <= i < |w| ==> w[i] in after)
      && (forall i :: 1 <= i < |w| ==> w[i] in cyclic)
      ensures after[w[|w| - 1]] >= (if w[0] in cyclic then 0 else after[w[0]]) + |w| - 1
    {
      if |w| > 1 {
        var front := w[..|w| - 1];
        forall i | 0 <= i < |front| - 1 ensures (front[i], front[i + 1]) in links { assert (w[i], w[i + 1]) in links; }
        assert IsWalk(links, front);
        assert (w[|w| - 2], w[|w| - 2 + 1]) in links;
        assert before[front[|front| - 1]] >= (if w[0] in cyclic then 0 else before[w[0]]) + |front| - 1;
      }
    }
  }

  lemma NothingLifted(links: Links, level: map<string, nat>, cyclic: set<string>)
    ensures Lifted(links, level, cyclic, 0)
  {
  }

  /** When a pass moves nothing, walks of every length have been followed. */
  lemma {:induction false} AllLifted(links: Links, level: map<string, nat>, cyclic: set<string>, places: set<string>,
                                     n: nat)
    requires level.Keys == places && Climbed(links, level, level, cyclic, places)
    ensures Lifted(links, level, cyclic, n)
  {
    if n == 0 {
      NothingLifted(links, level, cyclic);
    } else {
      AllLifted(links, level, cyclic, places, n - 1);
      LiftedOnce(links, level, level, cyclic, places, n - 1);
    }
  }

  lemma ClimbSource(links: Links, places: set<string>, indeg: map<string, nat>, level: map<string, nat>,
                    free: set<string>, v: string) returns (u: string)
    requires Finished(links, places, indeg, level, free) && v in places && level.Keys == places && level[v] > 0
    ensures u in free && u in places && level[v] == level[u] + 1
  {
    hide Counted, Within;
    var used := set e | e in links && e.0 in free;
    u :| (u, v) in used && u in places && level[v] == level[u] + 1;
  }

  /** The sweep leaves every level at most one above those of the free nodes. */
  lemma SweptBelow(links: Links, places: set<string>, indeg: map<string, nat>, level: map<string, nat>,
                   free: set<string>, cyclic: set<string>, b: int)
    requires Finished(links, places, indeg, level, free) && free <= places && level.Keys == places
    requires forall v :: v in places ==> (v in cyclic <==> v !in free)
    requires AcyclicBelow(level, cyclic, b) && b >= 0
    ensures Below(level, b)
  {
    forall v | v in level ensures level[v] <= b {
      if level[v] > 0 {
        var u := ClimbSource(links, places, indeg, level, free, v);
      }
    }
  }

  lemma ClimbedAcyclic(links: Links, before: map<string, nat>, after: map<string, nat>, cyclic: set<string>,
                       places: set<string>)
    requires Relaxed(before, after, cyclic) && before.Keys == places && Climbed(links, before, after, cyclic, places)
    requires Within(links, places)
    ensures forall u, v :: (u, v) in links && u !in cyclic && v in cyclic ==> after[v] > after[u]
  {
  }

  lemma CapStep(level0: map<string, nat>, before: map<string, nat>, after: map<string, nat>, cyclic: set<string>,
                pass: nat, b: int)
    requires Relaxed(level0, before, cyclic) && AcyclicBelow(level0, cyclic, b) && b >= 0
    requires Below(before, b + pass * |cyclic|)
    requires forall c :: Below(before, c) && AcyclicBelow(before, cyclic, c) ==> Below(after, c + |cyclic|)
    ensures Below(after, b + (pass + 1) * |cyclic|)
  {
    var c := b + pass * |cyclic|;
    assert c >= b;
    assert AcyclicBelow(before, cyclic, c);
    assert c + |cyclic| == b + (pass + 1) * |cyclic|;
  }

  lemma SameAcyclic(level0: map<string, nat>, level: map<string, nat>, cyclic: set<string>, b: int)
    requires Relaxed(level0, level, cyclic)
    ensures AcyclicBelow(level0, cyclic, b) <==> AcyclicBelow(level, cyclic, b)
  {
    if AcyclicBelow(level, cyclic, b) {
      forall u | u in level0 && u !in cyclic ensures level0[u] < b { assert u in level; }
    }
  }

  lemma CapGrows(level: map<string, nat>, b: int, pass: nat, c: nat)
    requires Below(level, b + pass * c) && pass <= 4
    ensures Below(level, b + 4 * c)
  {
    assert pass * c <= 4 * c;
  }

  /** Leftover nodes, and up to four relaxation passes over them. */
  method Place(links: Links, places: set<string>, succ: map<string, set<string>>, indeg: map<string, nat>,
               level0: map<string, nat>, ghost free: set<string>)
    returns (level: map<string, nat>, cyclic: set<string>)
    requires Finished(links, places, indeg, level0, free) && (forall u :: SuccOf(succ, u) == Succ(links, u))
    requires free <= places && indeg.Keys == places && level0.Keys == places
    ensures LevelsAreRight(links, places, level, cyclic)
    ensures Lifted(links, level, cyclic, 4)
    ensures forall b: int :: b >= 0 && AcyclicBelow(level, cyclic, b) ==> Below(level, b + 4 * |cyclic|)
  {
    hide Finished, Swept, Succ, SuccOf, Reaches, OnCycle, Lifted, Climbed, AcyclicBelow, Below, LongestInto, IsWalk;
    cyclic := set v | v in places && indeg[v] > 0;
    forall v | v in places ensures (v in cyclic <==> BehindCycle(links, v)) && (v in cyclic <==> v !in free) {
      LeftIffBehind(links, places, indeg, level0, free, v);
    }
    FinishedWithin(links, places, indeg, level0, free);
    level := level0;
    NothingLifted(links, level0, cyclic);
    forall b: int | b >= 0 && AcyclicBelow(level0, cyclic, b) ensures Below(level0, b) {
      SweptBelow(links, places, indeg, level0, free, cyclic, b);
    }
    var pass, moved := 0, true;
    while pass < 4 && moved
      invariant 0 <= pass <= 4
      invariant Relaxed(level0, level, cyclic)
      invariant pass > 0 ==> forall u, v :: (u, v) in links && u !in cyclic && v in cyclic ==> level[v] > level[u]
      invariant pass == 0 ==> moved
      invariant Lifted(links, level, cyclic, if moved then pass else 4)
      invariant forall b: int :: b >= 0 && AcyclicBelow(level0, cyclic, b) ==> Below(level, b + pass * |cyclic|)
    {
      hide BehindCycle;
      ghost var before := level;
      level, moved := RelaxOnce(links, places, succ, cyclic, level);
      LiftedOnce(links, before, level, cyclic, places, pass);
      ClimbedAcyclic(links, before, level, cyclic, places);
      forall b: int | b >= 0 && AcyclicBelow(level0, cyclic, b) ensures Below(level, b + (pass + 1) * |cyclic|) {
        CapStep(level0, before, level, cyclic, pass, b);
      }
      if !moved { AllLifted(links, level, cyclic, places, 4); }
      pass := pass + 1;
    }
    forall v | v in places && v !in cyclic ensures LongestInto(links, v, level[v]) {
      FreeLevelIsLongest(links, places, indeg, level0, free, v);
    }
    forall b: int | b >= 0 && AcyclicBelow(level, cyclic, b) ensures Below(level, b + 4 * |cyclic|) {
      SameAcyclic(level0, level, cyclic, b);
      CapGrows(level, b, pass, |cyclic|);
    }
    forall v | BehindCycle(links, v) ensures v in places { BehindIsPlace(links, places, v); }
  }

  ghost predicate Sweeping(links: Links, places: set<string>, indeg: map<string, nat>, level: map<string, nat>,
                           used: Links, done: set<string>, queue: seq<string>) {
    && Within(links, places) && done <= places
    && Between(links, used, done + Elements(queue), done, queue)
    && Swept(links, places, indeg, level, used, done + Elements(queue))
  }

  lemma SweepStarts(links: Links, places: set<string>, succ: map<string, set<string>>, indeg: map<string, nat>,
                    level: map<string, nat>, queue: seq<string>)
    requires Within(links, places) && Tables(links, places, succ, indeg) && level.Keys == places
    requires forall v :: v in places ==> level[v] == 0
    requires NoRepeats(queue) && forall v :: v in queue <==> v in places && indeg[v] == 0
    ensures Sweeping(links, places, indeg, level, {}, {}, queue)
  {
    hide Swept, Between, Within, NoRepeats;
    StartsSwept(links, places, indeg, level, queue);
    assert {} + Elements(queue) == Elements(queue);
  }

  method SweepOne(links: Links, places: set<string>, succ: map<string, set<string>>, indeg0: map<string, nat>,
                  level0: map<string, nat>,
                  ghost used0: Links, ghost done: set<string>, queue0: seq<string>)
    returns (indeg: map<string, nat>, level: map<string, nat>, queue: seq<string>, ghost used: Links)
    requires (forall u :: SuccOf(succ, u) == Succ(links, u)) && queue0 != []
    requires Sweeping(links, places, indeg0, level0, used0, done, queue0)
    ensures queue0[0] in places && queue0[0] !in done
    ensures Sweeping(links, places, indeg, level, used, done + {queue0[0]}, queue)
  {
    hide Swept, Between, Within, Elements, During, Queued, Succ, SuccOf;
    var x := queue0[0];
    TakeFirst(links, used0, done, queue0);
    SweptFree(links, places, indeg0, level0, used0, done + Elements(queue0));
    assert x in done + {x} + Elements(queue0[1..]);
    indeg, level, queue, used := Follow(links, places, succ, indeg0, level0, done, used0, x, queue0[1..]);
    TookFirst(links, used, done, x, queue);
  }

  lemma Closer(places: set<string>, done: set<string>, x: string)
    requires x in places && x !in done
    ensures |places - (done + {x})| < |places - done|
  {
    assert x in places - done;
    Shrinks(places - (done + {x}), places - done);
  }

  lemma EndsFinished(links: Links, places: set<string>, indeg: map<string, nat>, level: map<string, nat>, used: Links,
                     done: set<string>)
    requires Sweeping(links, places, indeg, level, used, done, [])
    ensures Finished(links, places, indeg, level, done) && done <= places && indeg.Keys == places
    ensures level.Keys == places
  {
    assert done + Elements([]) == done;
  }

  method CellLevels(nodes: map<string, Vertex>, edges: seq<(string, string)>)
    returns (level: map<string, nat>, cyclic: set<string>)
    ensures LevelsAreRight(Projection(nodes, edges), Real(nodes), level, cyclic)
    ensures Lifted(Projection(nodes, edges), level, cyclic, 4)
    ensures forall b: int :: b >= 0 && AcyclicBelow(level, cyclic, b) ==> Below(level, b + 4 * |cyclic|)
  {
    hide Lifted, AcyclicBelow, Below;
    hide Sweeping, Projection, Real, Succ, SuccOf, Tables, Within, NoRepeats, Finished, LevelsAreRight;
    var links := Projection(nodes, edges);
    ProjectionWithin(nodes, edges);
    var places, succ, indeg := BuildTables(nodes, edges);
    TablesParts(links, places, succ, indeg);
    level := map id | id in places :: 0;
    var queue := Sources(places, indeg);
    SweepStarts(links, places, succ, indeg, level, queue);
    ghost var done: set<string>, used: Links := {}, {};
    while queue != []
      invariant Sweeping(links, places, indeg, level, used, done, queue)
      decreases |places - done|
    {
      var x := queue[0];
      indeg, level, queue, used := SweepOne(links, places, succ, indeg, level, used, done, queue);
      Closer(places, done, x);
      done := done + {x};
    }
    EndsFinished(links, places, indeg, level, used, done);
    level, cyclic := Place(links, places, succ, indeg, level, done);
  }
}
