/** The numeric part of the final pass, from edge rows to degrees, cycle flags and components. */
module DiskAnalysis {
  import opened TarjanMachine
  import opened TarjanComponents
  import opened AdjacencyArrays
  import opened ArrayTarjan

  lemma BlockRows(rows: seq<(nat, nat)>, n: nat, successors: seq<nat>)
    requires Blocks(rows, rows, n, successors)
    ensures |successors| == |rows|
  {
  }

  lemma BlockEnds(rows: seq<(nat, nat)>, n: nat, offsets: array<nat>, successors: array<nat>, u: nat)
    requires Within(rows, n) && offsets.Length == n + 1 && successors.Length == |rows| && u < n
    requires offsets[u] == Before(rows, u) && offsets[u + 1] == Before(rows, u + 1)
    ensures offsets[u] + |Successors(rows, u)| == offsets[u + 1] && offsets[u + 1] <= successors.Length
  {
    BlocksFit(rows, rows, n, u);
  }

  lemma BlockEntry(rows: seq<(nat, nat)>, n: nat, successors: array<nat>, u: nat, k: nat)
    requires Blocks(rows, rows, n, successors[..]) && u < n && k < |Successors(rows, u)|
    ensures Before(rows, u) + k < successors.Length && successors[Before(rows, u) + k] == Successors(rows, u)[k]
  {
    hide Successors, Before;
    assert successors[..][Before(rows, u) + k] == Successors(rows, u)[k];
  }

  lemma BlocksAreAdjacent(rows: seq<(nat, nat)>, n: nat, offsets: array<nat>, successors: array<nat>,
                          search: ArraySearch)
    requires Within(rows, n) && offsets.Length == n + 1 && Blocks(rows, rows, n, successors[..])
    requires forall v {:trigger offsets[v]} :: 0 <= v <= n ==> offsets[v] == Before(rows, v)
    requires search.Layout() && search.n == n && search.offsets == offsets && search.successors == successors
    requires search.g == Adjacency(rows, n)
    ensures search.Adjacent()
  {
    BlockRows(rows, n, successors[..]);
    hide Successors, Before, Blocks, Within, WellFormed;
    forall u {:trigger offsets[u]} | 0 <= u < n
      ensures offsets[u] + |search.g[u]| == offsets[u + 1] && offsets[u + 1] <= successors.Length {
      BlockEnds(rows, n, offsets, successors, u);
    }
    forall u, k | 0 <= u < n && 0 <= k < |search.g[u]|
      ensures offsets[u] + k < successors.Length && successors[offsets[u] + k] == search.g[u][k]
    {
      BlockEnds(rows, n, offsets, successors, u);
      BlockEntry(rows, n, successors, u, k);
    }
  }

  lemma AdjacencySize(rows: seq<(nat, nat)>, n: nat)
    ensures |Adjacency(rows, n)| == n
  {
  }

  /** Degrees, compressed adjacency and the component search, all on arrays of node ordinals. */
  method Analyse(n: nat, rows: seq<(nat, nat)>)
    returns (ins: array<nat>, outs: array<nat>, flags: array<bool>, found: seq<seq<nat>>, count: nat)
    requires Within(rows, n)
    ensures fresh(ins) && fresh(outs) && fresh(flags) && ins != outs && ins.Length == outs.Length == flags.Length == n
    ensures WellFormed(Adjacency(rows, n)) && found == Cycles(Adjacency(rows, n)) && count == TotalSize(found)
    ensures forall v :: 0 <= v < n ==> ins[v] == InDegree(rows, v) && outs[v] == |Successors(rows, v)|
    ensures forall v :: 0 <= v < n ==> (flags[v] <==> InComps(found, v))
  {
    hide Blocks, Cycles, Adjacency, WellFormed, Before, InComps, ArraySearch.HoldsMarks, ArraySearch.HoldsReport;
    hide ArraySearch.Adjacent;
    ins := new nat[n](_ => 0);
    outs := new nat[n](_ => 0);
    CountDegrees(n, rows, ins, outs);
    var offsets, positions := BlockOffsets(n, rows, outs);
    var successors := FillBlocks(n, rows, positions);
    AdjacencyWellFormed(rows, n);
    AdjacencySize(rows, n);
    var search := new ArraySearch(n, Adjacency(rows, n), offsets, successors);
    BlocksAreAdjacent(rows, n, offsets, successors, search);
    search.Run(Init(n));
    flags, found, count := search.cyclic, search.cycles, search.cyclicCount;
  }
}
