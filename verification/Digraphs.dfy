/** Walks, reachability and cycles of a finite directed graph given by its set of edges.
    Shared by the component finder, the level assignment, the snapshots and the panel grouping. */
module Digraphs {

  ghost predicate IsWalk<T(!new)>(edges: set<(T, T)>, walk: seq<T>) {
    && |walk| > 0
    && forall i :: 0 <= i < |walk| - 1 ==> (walk[i], walk[i + 1]) in edges
  }

  ghost predicate WalkFromTo<T(!new)>(edges: set<(T, T)>, walk: seq<T>, u: T, v: T) {
    IsWalk(edges, walk) && walk[0] == u && walk[|walk| - 1] == v
  }

  ghost predicate Reaches<T(!new)>(edges: set<(T, T)>, u: T, v: T) {
    exists walk :: WalkFromTo(edges, walk, u, v)
  }

  /** Some walk of at least one edge leads from v back to v. */
  ghost predicate OnCycle<T(!new)>(edges: set<(T, T)>, v: T) {
    exists w :: (v, w) in edges && Reaches(edges, w, v)
  }

  ghost predicate Closed<T(!new)>(edges: set<(T, T)>, s: set<T>) {
    forall u, v :: (u, v) in edges && u in s ==> v in s
  }

  lemma ReachesSelf<T(!new)>(edges: set<(T, T)>, v: T)
    ensures Reaches(edges, v, v)
  {
    assert WalkFromTo(edges, [v], v, v);
  }

  lemma ReachesEdge<T(!new)>(edges: set<(T, T)>, u: T, v: T)
    requires (u, v) in edges
    ensures Reaches(edges, u, v)
  {
    assert WalkFromTo(edges, [u, v], u, v);
  }

  lemma ReachesTransitive<T(!new)>(edges: set<(T, T)>, u: T, v: T, w: T)
    requires Reaches(edges, u, v) && Reaches(edges, v, w)
    ensures Reaches(edges, u, w)
  {
    var p :| WalkFromTo(edges, p, u, v);
    var q :| WalkFromTo(edges, q, v, w);
    var r := p + q[1..];
    forall i | 0 <= i < |r| - 1
      ensures (r[i], r[i + 1]) in edges
    {
      if i >= |p| - 1 {
        assert (q[i - |p| + 1], q[i - |p| + 2]) in edges;
      } else {
        assert (p[i], p[i + 1]) in edges;
      }
    }
    assert WalkFromTo(edges, r, u, w);
  }

  lemma {:induction false} WalkStaysInClosed<T(!new)>(edges: set<(T, T)>, s: set<T>, walk: seq<T>, k: nat)
    requires IsWalk(edges, walk) && Closed(edges, s) && walk[0] in s && k < |walk|
    ensures walk[k] in s
  {
    if k > 0 {
      WalkStaysInClosed(edges, s, walk, k - 1);
      assert (walk[k - 1], walk[k - 1 + 1]) in edges;
    }
  }

  /** What a closed set reaches, it contains. */
  lemma ReachesStaysInClosed<T(!new)>(edges: set<(T, T)>, s: set<T>, u: T, v: T)
    requires Reaches(edges, u, v) && Closed(edges, s) && u in s
    ensures v in s
  {
    var p :| WalkFromTo(edges, p, u, v);
    WalkStaysInClosed(edges, s, p, |p| - 1);
  }
}
