/** Compressed adjacency: one pass counts the edges of every node, a second drops each edge's
    target into the block of its source, in edge order. */
module AdjacencyArrays {
  import opened TarjanMachine

  /** The targets of the edges leaving u, in edge order. */
  function Successors(rows: seq<(nat, nat)>, u: nat): (r: seq<nat>) {
    if rows == [] then []
    else
      var last := rows[|rows| - 1];
      Successors(rows[..|rows| - 1], u) + if last.0 == u then [last.1] else []
  }

  function InDegree(rows: seq<(nat, nat)>, v: nat): (r: nat) {
    if rows == [] then 0
    else InDegree(rows[..|rows| - 1], v) + if rows[|rows| - 1].1 == v then 1 else 0
  }

  ghost predicate Within(rows: seq<(nat, nat)>, n: nat) {
    forall k :: 0 <= k < |rows| ==> rows[k].0 < n && rows[k].1 < n
  }

  function Adjacency(rows: seq<(nat, nat)>, n: nat): (r: Graph) {
    seq(n, u requires 0 <= u => Successors(rows, u))
  }

  lemma {:induction false} SuccessorsWithin(rows: seq<(nat, nat)>, n: nat, u: nat)
    requires Within(rows, n)
    ensures forall k :: 0 <= k < |Successors(rows, u)| ==> Successors(rows, u)[k] < n
  {
    if rows != [] { SuccessorsWithin(rows[..|rows| - 1], n, u); }
  }

  lemma AdjacencyWellFormed(rows: seq<(nat, nat)>, n: nat)
    requires Within(rows, n)
    ensures WellFormed(Adjacency(rows, n))
  {
    forall u, k | 0 <= u < n && 0 <= k < |Adjacency(rows, n)[u]| ensures Adjacency(rows, n)[u][k] < n {
      SuccessorsWithin(rows, n, u);
    }
  }

  /** How many edges leave the nodes below n. */
  ghost function Before(rows: seq<(nat, nat)>, n: nat): (r: nat) {
    if n == 0 then 0 else Before(rows, n - 1) + |Successors(rows, n - 1)|
  }

  lemma {:induction false} BeforeLast(rows: seq<(nat, nat)>, n: nat)
    requires rows != []
    ensures Before(rows, n) == Before(rows[..|rows| - 1], n) + if rows[|rows| - 1].0 < n then 1 else 0
  {
    if n > 0 { BeforeLast(rows, n - 1); }
  }

  lemma {:induction false} BeforeEmpty(n: nat)
    ensures Before([], n) == 0
  {
    if n > 0 { BeforeEmpty(n - 1); }
  }

  /** The blocks of all nodes together hold every edge once. */
  lemma {:induction false} BeforeAll(rows: seq<(nat, nat)>, n: nat)
    requires Within(rows, n)
    ensures Before(rows, n) == |rows|
  {
    if rows == [] {
      BeforeEmpty(n);
    } else {
      BeforeLast(rows, n);
      BeforeAll(rows[..|rows| - 1], n);
    }
  }

  lemma {:induction false} BeforeMonotone(rows: seq<(nat, nat)>, a: nat, b: nat)
    requires a <= b
    ensures Before(rows, a) <= Before(rows, b)
    decreases b
  {
    if a < b { BeforeMonotone(rows, a, b - 1); }
  }

  lemma {:induction false} SuccessorsPrefix(rows: seq<(nat, nat)>, k: nat, u: nat)
    requires k <= |rows|
    ensures Successors(rows[..k], u) <= Successors(rows, u)
    decreases |rows|
  {
    if k == |rows| {
      assert rows[..k] == rows;
    } else {
      SuccessorsPrefix(rows[..|rows| - 1], k, u);
      assert rows[..|rows| - 1][..k] == rows[..k];
    }
  }

  lemma NextSuccessor(rows: seq<(nat, nat)>, k: nat, u: nat)
    requires k < |rows|
    ensures Successors(rows[..k + 1], u) == Successors(rows[..k], u) + if rows[k].0 == u then [rows[k].1] else []
    ensures InDegree(rows[..k + 1], u) == InDegree(rows[..k], u) + if rows[k].1 == u then 1 else 0
    ensures Successors(rows[..k + 1], u) <= Successors(rows, u)
  {
    assert rows[..k + 1][..k] == rows[..k];
    SuccessorsPrefix(rows, k + 1, u);
  }

  method CountDegrees(n: nat, rows: seq<(nat, nat)>, indegree: array<nat>, outdegree: array<nat>)
    requires Within(rows, n) && indegree != outdegree && indegree.Length == n && outdegree.Length == n
    requires forall v :: 0 <= v < n ==> indegree[v] == 0 && outdegree[v] == 0
    modifies indegree, outdegree
    ensures forall v :: 0 <= v < n ==> indegree[v] == InDegree(rows, v) && outdegree[v] == |Successors(rows, v)|
  {
    for k := 0 to |rows|
      invariant forall v :: 0 <= v < n ==> indegree[v] == InDegree(rows[..k], v)
      invariant forall v :: 0 <= v < n ==> outdegree[v] == |Successors(rows[..k], v)|
    {
      var source, target := rows[k].0, rows[k].1;
      outdegree[source] := outdegree[source] + 1;
      indegree[target] := indegree[target] + 1;
      forall v: nat | v < n
        ensures Successors(rows[..k + 1], v) == Successors(rows[..k], v) + if rows[k].0 == v then [rows[k].1] else []
        ensures InDegree(rows[..k + 1], v) == InDegree(rows[..k], v) + if rows[k].1 == v then 1 else 0
      {
        NextSuccessor(rows, k, v);
      }
    }
    assert rows[..|rows|] == rows;
  }

  method BlockOffsets(n: nat, ghost rows: seq<(nat, nat)>, outdegree: array<nat>)
    returns (offsets: array<nat>, positions: array<nat>)
    requires outdegree.Length == n && forall v :: 0 <= v < n ==> outdegree[v] == |Successors(rows, v)|
    ensures fresh(offsets) && fresh(positions) && offsets != positions
    ensures offsets.Length == n + 1 && positions.Length == n
    ensures forall v {:trigger offsets[v]} :: 0 <= v <= n ==> offsets[v] == Before(rows, v)
    ensures forall v {:trigger positions[v]} :: 0 <= v < n ==> positions[v] == Before(rows, v)
  {
    offsets := new nat[n + 1](_ => 0);
    positions := new nat[n];
    for node := 0 to n
      invariant forall v {:trigger offsets[v]} :: 0 <= v <= node ==> offsets[v] == Before(rows, v)
      invariant forall v {:trigger positions[v]} :: 0 <= v < node ==> positions[v] == Before(rows, v)
      invariant forall v {:trigger outdegree[v]} :: 0 <= v < n ==> outdegree[v] == |Successors(rows, v)|
    {
      assert Before(rows, node + 1) == Before(rows, node) + |Successors(rows, node)|;
      offsets[node + 1] := offsets[node] + outdegree[node];
      positions[node] := offsets[node];
    }
  }

  ghost predicate Blocks(rows: seq<(nat, nat)>, part: seq<(nat, nat)>, n: nat, successors: seq<nat>)
  {
    && |successors| == |rows|
    && (forall u :: 0 <= u < n ==> Before(rows, u) + |Successors(part, u)| <= |rows|)
    && (forall u, j {:trigger Successors(part, u)[j]} :: 0 <= u < n && 0 <= j < |Successors(part, u)|
          ==> successors[Before(rows, u) + j] == Successors(part, u)[j])
  }

  lemma BlocksFit(rows: seq<(nat, nat)>, part: seq<(nat, nat)>, n: nat, u: nat)
    requires Within(rows, n) && u < n && Successors(part, u) <= Successors(rows, u)
    ensures Before(rows, u) + |Successors(part, u)| <= Before(rows, u + 1) <= |rows|
  {
    BeforeAll(rows, n);
    BeforeMonotone(rows, u + 1, n);
  }

  /** The filled part of a block stops before the next block starts. */
  lemma BlockBelow(rows: seq<(nat, nat)>, k: nat, n: nat, u: nat, v: nat)
    requires Within(rows, n) && k < |rows| && u < v < n
    ensures Before(rows, u) + |Successors(rows[..k], u)| + (if rows[k].0 == u then 1 else 0) <= Before(rows, v)
  {
    hide Successors, Before, InDegree, Within;
    NextSuccessor(rows, k, u);
    BlocksFit(rows, rows[..k + 1], n, u);
    BeforeMonotone(rows, u + 1, v);
  }

  lemma BlockElsewhere(rows: seq<(nat, nat)>, k: nat, n: nat, u: nat, j: nat)
    requires Within(rows, n) && k < |rows| && u < n && j < |Successors(rows[..k], u)|
    ensures Before(rows, u) + j != Before(rows, rows[k].0) + |Successors(rows[..k], rows[k].0)|
  {
    if u < rows[k].0 {
      BlockBelow(rows, k, n, u, rows[k].0);
    } else if rows[k].0 < u {
      BlockBelow(rows, k, n, rows[k].0, u);
    }
  }

  lemma BlockKept(rows: seq<(nat, nat)>, k: nat, n: nat, successors: seq<nat>, u: nat, j: nat)
    requires Within(rows, n) && k < |rows| && Blocks(rows, rows[..k], n, successors)
    requires u < n && j < |Successors(rows[..k + 1], u)|
    requires Before(rows, rows[k].0) + |Successors(rows[..k], rows[k].0)| < |rows|
    requires Before(rows, u) + j < |rows|
    ensures var at := Before(rows, rows[k].0) + |Successors(rows[..k], rows[k].0)|;
      successors[at := rows[k].1][Before(rows, u) + j] == Successors(rows[..k + 1], u)[j]
  {
    hide Successors, Before, InDegree, Within;
    NextSuccessor(rows, k, u);
    if j < |Successors(rows[..k], u)| {
      BlockElsewhere(rows, k, n, u, j);
      assert Successors(rows[..k + 1], u)[j] == Successors(rows[..k], u)[j];
    }
  }

  /** Dropping one more edge into its block disturbs no other block. */
  lemma BlocksStep(rows: seq<(nat, nat)>, k: nat, n: nat, successors: seq<nat>)
    requires Within(rows, n) && k < |rows| && Blocks(rows, rows[..k], n, successors)
    ensures var at := Before(rows, rows[k].0) + |Successors(rows[..k], rows[k].0)|;
      at < |rows| && Blocks(rows, rows[..k + 1], n, successors[at := rows[k].1])
  {
    var source := rows[k].0;
    var at := Before(rows, source) + |Successors(rows[..k], source)|;
    var next := rows[..k + 1];
    NextSuccessor(rows, k, source);
    BlocksFit(rows, next, n, source);
    var after := successors[at := rows[k].1];
    forall u | 0 <= u < n ensures Before(rows, u) + |Successors(next, u)| <= |rows| {
      NextSuccessor(rows, k, u);
      BlocksFit(rows, next, n, u);
    }
    forall u, j | 0 <= u < n && 0 <= j < |Successors(next, u)|
      ensures after[Before(rows, u) + j] == Successors(next, u)[j]
    {
      BlockKept(rows, k, n, successors, u, j);
    }
  }

  lemma NoBlocks(rows: seq<(nat, nat)>, n: nat, successors: seq<nat>)
    requires Within(rows, n) && |successors| == |rows|
    ensures Blocks(rows, rows[..0], n, successors)
    ensures forall v: nat :: v < n ==> |Successors(rows[..0], v)| == 0
  {
    forall u | 0 <= u < n ensures Before(rows, u) + |Successors(rows[..0], u)| <= |rows| {
      BlocksFit(rows, [], n, u);
    }
  }

  lemma NextPositions(rows: seq<(nat, nat)>, k: nat, n: nat)
    requires k < |rows|
    ensures forall v: nat :: v < n ==>
        |Successors(rows[..k + 1], v)| == |Successors(rows[..k], v)| + if rows[k].0 == v then 1 else 0
  {
    hide Successors, InDegree;
    forall v: nat | v < n
      ensures |Successors(rows[..k + 1], v)| == |Successors(rows[..k], v)| + if rows[k].0 == v then 1 else 0
    {
      NextSuccessor(rows, k, v);
    }
  }

  lemma RowWithin(rows: seq<(nat, nat)>, k: nat, n: nat)
    requires Within(rows, n) && k < |rows|
    ensures rows[k].0 < n && rows[k].1 < n
  {
  }

  method FillBlocks(n: nat, rows: seq<(nat, nat)>, positions: array<nat>) returns (successors: array<nat>)
    requires Within(rows, n) && positions.Length == n
    requires forall v :: 0 <= v < n ==> positions[v] == Before(rows, v)
    modifies positions
    ensures fresh(successors) && Blocks(rows, rows, n, successors[..])
  {
    hide Successors, Before, Blocks, Within;
    successors := new nat[|rows|](_ => 0);
    NoBlocks(rows, n, successors[..]);
    for k := 0 to |rows|
      invariant forall v {:trigger positions[v]} :: 0 <= v < n ==>
          positions[v] == Before(rows, v) + |Successors(rows[..k], v)|
      invariant Blocks(rows, rows[..k], n, successors[..])
    {
      var source, target := rows[k].0, rows[k].1;
      RowWithin(rows, k, n);
      BlocksStep(rows, k, n, successors[..]);
      NextPositions(rows, k, n);
      var position := positions[source];
      ghost var before := successors[..];
      successors[position] := target;
      assert successors[..] == before[position := target];
      positions[source] := position + 1;
    }
    assert rows[..|rows|] == rows;
  }
}
