/**
 * The reachability grid of src/reachability_map.cpp: a dense grid of integer
 * reach counts (`r_map_`) and penalties (`p_map_`) in row-major order, with a
 * running maximum (`max_value_`). The vectors the source resizes are `seq`
 * fields that the methods reassign; the loops that update them cell by cell
 * are kept. Counts are unbounded integers.
 */
module Reachability {
  import opened VoxelGrid

  // ---------------------------------------------------------------------
  // Specification functions
  // ---------------------------------------------------------------------

  function Zeros(n: nat): (s: seq<int>)
    ensures |s| == n && forall j :: 0 <= j < n ==> s[j] == 0
  {
    seq(n, _ => 0)
  }

  /**
   * `std::vector::resize(n, 0)`: the first min(n, |s|) elements are kept and
   * any new ones are zero.
   */
  function Resized(s: seq<int>, n: nat): (r: seq<int>)
    ensures |r| == n
    ensures forall j :: 0 <= j < n ==> r[j] == if j < |s| then s[j] else 0
  {
    if n <= |s| then s[..n] else s + Zeros(n - |s|)
  }

  /** Cellwise sum over the cells of `a`; `b` may be longer (addMap checks no geometry). */
  function CellSum(a: seq<int>, b: seq<int>): (r: seq<int>)
    requires |b| >= |a|
    ensures |r| == |a|
  {
    seq(|a|, j requires 0 <= j < |a| => a[j] + b[j])
  }

  /**
   * `m` is the running maximum the source keeps: it starts at `m0` and is
   * raised to every value in `s` that exceeds it.
   */
  predicate MaxUpdated(m0: int, s: seq<int>, m: int)
  {
    m >= m0 && (forall j :: 0 <= j < |s| ==> s[j] <= m) && (m == m0 || m in s)
  }

  /** Flat cells `i` and `j` are axis-aligned neighbours of the grid. */
  ghost predicate Linked(steps: seq<int>, i: int, j: int)
  {
    AllPositive(steps) && Adjacent(Decompose(steps, i), Decompose(steps, j))
  }

  /** Some cell below `k` with a positive count is a neighbour of cell `j`. */
  ghost predicate ActiveBelow(r: seq<int>, steps: seq<int>, j: int, k: int)
  {
    exists i :: 0 <= i < k && i < |r| && r[i] > 0 && Linked(steps, i, j)
  }

  /**
   * What `map_copy[j]` holds in grow once the cells below `k` have been
   * scanned: 1 for a positive count, the count itself when negative, and for
   * a zero count the sentinel 2 if an already scanned positive cell is its
   * neighbour, else 0.
   */
  ghost function Marked(r: seq<int>, steps: seq<int>, j: int, k: int): int
    requires 0 <= j < |r|
  {
    if r[j] > 0 then 1
    else if r[j] < 0 then r[j]
    else if ActiveBelow(r, steps, j, k) then 2
    else 0
  }

  /** The copy's value folded back: a sentinel 2 counts as 1. */
  function Collapse(x: int): int
  {
    if x > 1 then 1 else x
  }

  /** What one grow step adds to cell `j`. */
  ghost function GrowDelta(r: seq<int>, steps: seq<int>, j: int): int
    requires 0 <= j < |r|
  {
    if r[j] > 0 then 1
    else if r[j] < 0 then r[j]
    else if ActiveBelow(r, steps, j, |r|) then 1
    else 0
  }

  /** The counts after one grow step (dimension 2 or 3). */
  ghost function Grown(r: seq<int>, steps: seq<int>): (g: seq<int>)
    ensures |g| == |r|
  {
    seq(|r|, j requires 0 <= j < |r| => r[j] + GrowDelta(r, steps, j))
  }

  /** `getValue`'s double quotient, division by zero included. */
  datatype Score = Finite(value: real) | PlusInfinity | MinusInfinity | NotANumber

  function Ratio(num: int, den: int): Score
  {
    if den != 0 then Finite(num as real / den as real)
    else if num > 0 then PlusInfinity
    else if num < 0 then MinusInfinity
    else NotANumber
  }

  /** A cell offset with every component in {-1, 0, 1}, not all zero. */
  predicate UnitOffset(o: seq<int>)
  {
    (forall i :: 0 <= i < |o| ==> -1 <= o[i] <= 1) && exists i :: 0 <= i < |o| && o[i] != 0
  }

  /** Offset number `j` of the 3 x 3 block, first axis fastest; `j` = 4 is the centre. */
  function Offset2(j: int): (o: seq<int>)
    requires 0 <= j < 9 && j != 4
    ensures |o| == 2 && UnitOffset(o)
    ensures (o[0] + 1) + 3 * (o[1] + 1) == j
  {
    var o := [j % 3 - 1, j / 3 - 1];
    assert o[0] != 0 || o[1] != 0;
    o
  }

  /** Offset number `j` of the 3 x 3 x 3 block, first axis fastest; `j` = 13 is the centre. */
  function Offset3(j: int): (o: seq<int>)
    requires 0 <= j < 27 && j != 13
    ensures |o| == 3 && UnitOffset(o)
    ensures (o[0] + 1) + 3 * (o[1] + 1) + 9 * (o[2] + 1) == j
  {
    var o := [j % 3 - 1, (j / 3) % 3 - 1, j / 9 - 1];
    assert o[0] != 0 || o[1] != 0 || o[2] != 0;
    o
  }

  /**
   * The `neighbours_` table the constructor builds: the 8 (dimension 2) or
   * 26 (dimension 3) diagonal-inclusive offsets, last axis outermost, and
   * nothing for any other dimension.
   */
  function MooreOffsets(dim: int): (offs: seq<seq<int>>)
    ensures dim == 2 ==> |offs| == 8
    ensures dim == 3 ==> |offs| == 26
    ensures dim != 2 && dim != 3 ==> offs == []
    ensures forall k :: 0 <= k < |offs| ==> |offs[k]| == dim && UnitOffset(offs[k])
    ensures forall k, l :: 0 <= k < l < |offs| ==> offs[k] != offs[l]
  {
    if dim == 2 then
      var offs := seq(8, k requires 0 <= k < 8 => Offset2(if k < 4 then k else k + 1));
      assert forall k :: 0 <= k < 8 ==> offs[k] == Offset2(if k < 4 then k else k + 1);
      offs
    else if dim == 3 then
      var offs := seq(26, k requires 0 <= k < 26 => Offset3(if k < 13 then k else k + 1));
      assert forall k :: 0 <= k < 26 ==> offs[k] == Offset3(if k < 13 then k else k + 1);
      offs
    else
      []
  }

  /** Sample extent: the smallest coordinate on axis `a`, starting from 1000000. */
  function MinCoord(points: seq<seq<real>>, a: nat): real
    requires forall k :: 0 <= k < |points| ==> a < |points[k]|
  {
    if |points| == 0 then 1000000.0
    else
      var m := MinCoord(points[..|points| - 1], a);
      var x := points[|points| - 1][a];
      if m > x then x else m
  }

  /** Sample extent: the largest coordinate on axis `a`, starting from -1000000. */
  function MaxCoord(points: seq<seq<real>>, a: nat): real
    requires forall k :: 0 <= k < |points| ==> a < |points[k]|
  {
    if |points| == 0 then -1000000.0
    else
      var m := MaxCoord(points[..|points| - 1], a);
      var x := points[|points| - 1][a];
      if m < x then x else m
  }

  predicate Uniform(points: seq<seq<real>>, dim: nat)
  {
    forall k :: 0 <= k < |points| ==> |points[k]| == dim
  }

  function LowerExtent(points: seq<seq<real>>, dim: nat): (lo: seq<real>)
    requires Uniform(points, dim)
    ensures |lo| == dim
  {
    seq(dim, a requires 0 <= a < dim => MinCoord(points, a))
  }

  function UpperExtent(points: seq<seq<real>>, dim: nat): (hi: seq<real>)
    requires Uniform(points, dim)
    ensures |hi| == dim
  {
    seq(dim, a requires 0 <= a < dim => MaxCoord(points, a))
  }

  /** The flat index each sample falls into. */
  function BinIndices(points: seq<seq<real>>, origin: seq<real>, v: real, steps: seq<int>): (idxs: seq<int>)
    requires v > 0.0 && |origin| == |steps| && Uniform(points, |steps|)
    ensures |idxs| == |points|
  {
    seq(|points|, k requires 0 <= k < |points| => Index(points[k], origin, v, steps))
  }

  /** Every sample falls into a cell of the grid. */
  predicate AllBinned(points: seq<seq<real>>, origin: seq<real>, v: real, steps: seq<int>)
    requires v > 0.0 && |origin| == |steps| && Uniform(points, |steps|)
  {
    forall k :: 0 <= k < |points| ==> Index(points[k], origin, v, steps) >= 0
  }

  /**
   * `m` is the maximum the binning loop keeps: 0 if nothing was binned, else
   * the largest final count among the cells it incremented.
   */
  predicate MaxOverCells(s: seq<int>, cells: seq<int>, m: int)
  {
    m >= 0 &&
    (forall k :: 0 <= k < |cells| && 0 <= cells[k] < |s| ==> s[cells[k]] <= m) &&
    (m == 0 || exists k :: 0 <= k < |cells| && 0 <= cells[k] < |s| && s[cells[k]] == m)
  }

  /**
   * `r` is `r0` with one more count in a cell for every sample binned into
   * it, and `m` is the maximum the binning loop ends with.
   */
  predicate CountsBinned(r0: seq<int>, cells: seq<int>, r: seq<int>, m: int)
  {
    |r| == |r0| &&
    (forall j :: 0 <= j < |r| ==> r[j] == r0[j] + multiset(cells)[j]) &&
    MaxOverCells(r, cells, m)
  }

  /** Scanning a positive cell marks exactly its listed neighbours. */
  lemma ScanActiveCell(r: seq<int>, steps: seq<int>, idx: int, ns: seq<int>, j: int)
    requires AllPositive(steps) && |r| == Product(steps)
    requires 0 <= idx < |r| && r[idx] > 0 && 0 <= j < |r|
    requires ListsNeighbours(steps, Decompose(steps, idx), ns)
    ensures ActiveBelow(r, steps, j, idx + 1) <==> ActiveBelow(r, steps, j, idx) || j in ns
  {
    var d := Decompose(steps, idx);
    ComposeDecompose(steps, idx);
    NeighboursAreAdjacent(steps, d, ns);
    if ActiveBelow(r, steps, j, idx + 1) && !ActiveBelow(r, steps, j, idx) {
      var i :| 0 <= i < idx + 1 && i < |r| && r[i] > 0 && Linked(steps, i, j);
      assert i == idx;
      assert Adjacent(d, Decompose(steps, j));
    }
    if j in ns {
      var k :| 0 <= k < |ns| && ns[k] == j;
      assert Linked(steps, idx, j);
    }
  }

  /** Scanning a cell that is not positive marks nothing. */
  lemma ScanInactiveCell(r: seq<int>, steps: seq<int>, idx: int, j: int)
    requires 0 <= idx < |r| && r[idx] <= 0
    ensures ActiveBelow(r, steps, j, idx + 1) <==> ActiveBelow(r, steps, j, idx)
  {
    if ActiveBelow(r, steps, j, idx + 1) {
      var i :| 0 <= i < idx + 1 && i < |r| && r[i] > 0 && Linked(steps, i, j);
      assert i != idx;
      assert 0 <= i < idx && i < |r| && r[i] > 0 && Linked(steps, i, j);
    }
    if ActiveBelow(r, steps, j, idx) {
      var i :| 0 <= i < idx && i < |r| && r[i] > 0 && Linked(steps, i, j);
      assert 0 <= i < idx + 1 && i < |r| && r[i] > 0 && Linked(steps, i, j);
    }
  }

  /**
   * The inner loop of grow's marking pass: each listed neighbour that holds
   * 0 in the copy receives the sentinel 2.
   */
  method MarkNeighbours(copy0: seq<int>, ns: seq<int>) returns (copy: seq<int>)
    requires forall k :: 0 <= k < |ns| ==> 0 <= ns[k] < |copy0|
    ensures |copy| == |copy0|
    ensures forall j :: 0 <= j < |copy| ==> copy[j] == if copy0[j] == 0 && j in ns then 2 else copy0[j]
  {
    copy := copy0;
    for m := 0 to |ns|
      invariant |copy| == |copy0|
      invariant forall j :: 0 <= j < |copy| ==>
        copy[j] == if copy0[j] == 0 && j in ns[..m] then 2 else copy0[j]
    {
      assert ns[..m + 1] == ns[..m] + [ns[m]];
      if copy[ns[m]] == 0 {
        copy := copy[ns[m] := 2];
      }
    }
    assert ns[..|ns|] == ns;
  }

  /** Marking the neighbours of the positive cell `idx` advances the scan by one cell. */
  lemma MarkingAdvances(r: seq<int>, steps: seq<int>, idx: int, ns: seq<int>, copy0: seq<int>, copy: seq<int>)
    requires AllPositive(steps) && |r| == Product(steps)
    requires 0 <= idx < |r| && r[idx] > 0
    requires ListsNeighbours(steps, Decompose(steps, idx), ns)
    requires |copy0| == |r| == |copy|
    requires forall j :: 0 <= j < |copy0| ==> copy0[j] == Marked(r, steps, j, idx)
    requires forall j :: 0 <= j < |copy| ==> copy[j] == if copy0[j] == 0 && j in ns then 2 else copy0[j]
    ensures forall j :: 0 <= j < |copy| ==> copy[j] == Marked(r, steps, j, idx + 1)
  {
    forall j | 0 <= j < |copy| ensures copy[j] == Marked(r, steps, j, idx + 1) {
      ScanActiveCell(r, steps, idx, ns, j);
    }
  }

  /** With non-negative penalties a count bounded by a positive maximum scores at most 1. */
  lemma ScoreAtMostOne(r: int, p: int, m: int)
    ensures m > 0 && r <= m && p >= 0 ==> Ratio(r - p, m).Finite? && Ratio(r - p, m).value <= 1.0
  {
    if m > 0 && r <= m && p >= 0 {
      assert (r - p) as real <= m as real;
    }
  }

  /** A penalty of one maximum lowers a finite score by exactly 1. */
  lemma PenaltyLowersScore(r: int, p: int, m: int)
    requires m > 0
    ensures Ratio(r - (p + m), m) == Finite(Ratio(r - p, m).value - 1.0)
  {
  }

  /**
   * The extent loop of the sampling generate: per axis, the smallest and
   * largest sample coordinate, starting from 1000000 and -1000000.
   */
  method SampleExtent(points: seq<seq<real>>, dim: nat) returns (lo: seq<real>, hi: seq<real>)
    requires Uniform(points, dim)
    ensures lo == LowerExtent(points, dim) && hi == UpperExtent(points, dim)
  {
    lo := seq(dim, _ => 1000000.0);
    hi := seq(dim, _ => -1000000.0);
    for k := 0 to |points|
      invariant |lo| == dim && |hi| == dim
      invariant forall a :: 0 <= a < dim ==> lo[a] == MinCoord(points[..k], a) && hi[a] == MaxCoord(points[..k], a)
    {
      assert points[..k + 1][..k] == points[..k];
      for a := 0 to dim
        invariant |lo| == dim && |hi| == dim
        invariant forall b :: 0 <= b < a ==> lo[b] == MinCoord(points[..k + 1], b) && hi[b] == MaxCoord(points[..k + 1], b)
        invariant forall b :: a <= b < dim ==> lo[b] == MinCoord(points[..k], b) && hi[b] == MaxCoord(points[..k], b)
      {
        if lo[a] > points[k][a] {
          lo := lo[a := points[k][a]];
        }
        if hi[a] < points[k][a] {
          hi := hi[a := points[k][a]];
        }
      }
    }
    assert points[..|points|] == points;
  }

  /** One binning step keeps the count-per-cell and maximum descriptions. */
  lemma BinStep(r0: seq<int>, cells: seq<int>, k: int, idx: int, r: seq<int>, m: int, r': seq<int>, m': int)
    requires 0 <= k < |cells| && |r| == |r0| && idx == cells[k] && 0 <= idx < |r|
    requires CountsBinned(r0, cells[..k], r, m)
    requires r' == r[idx := r[idx] + 1]
    requires m' == if r'[idx] > m then r'[idx] else m
    ensures CountsBinned(r0, cells[..k + 1], r', m')
  {
    var c := cells[..k + 1];
    assert c == cells[..k] + [idx];
    assert multiset(c) == multiset(cells[..k]) + multiset{idx};
    forall q | 0 <= q < |c| && 0 <= c[q] < |r'| ensures r'[c[q]] <= m' {
      if q < k {
        assert c[q] == cells[..k][q];
      }
    }
    if m' != 0 {
      if m' == r'[idx] {
        assert c[k] == idx;
      } else {
        var w :| 0 <= w < k && 0 <= cells[..k][w] < |r| && r[cells[..k][w]] == m;
        assert c[w] == cells[..k][w];
        assert c[w] != idx;
      }
    }
  }

  /** When every sample is binned, every binned index is a cell of the grid. */
  lemma BinnedInRange(points: seq<seq<real>>, origin: seq<real>, v: real, steps: seq<int>)
    requires v > 0.0 && |origin| == |steps| && Uniform(points, |steps|)
    requires AllBinned(points, origin, v, steps)
    ensures forall q :: 0 <= q < |points| ==> 0 <= BinIndices(points, origin, v, steps)[q] < Product(steps)
  {
    var cells := BinIndices(points, origin, v, steps);
    forall q | 0 <= q < |points| ensures 0 <= cells[q] < Product(steps) {
      assert cells[q] == Index(points[q], origin, v, steps);
    }
  }

  /**
   * The binning loop of the sampling generate: one count per sample in the
   * cell `getIndex` gives it, raising a maximum that starts from 0.
   */
  method BinCounts(points: seq<seq<real>>, origin: seq<real>, v: real, steps: seq<int>, r0: seq<int>)
      returns (r: seq<int>, m: int)
    requires v > 0.0 && |origin| == |steps| && Uniform(points, |steps|) && |r0| == Product(steps)
    requires AllBinned(points, origin, v, steps)
    ensures CountsBinned(r0, BinIndices(points, origin, v, steps), r, m)
  {
    ghost var cells := BinIndices(points, origin, v, steps);
    BinnedInRange(points, origin, v, steps);
    r := r0;
    m := 0;
    assert cells[..0] == [];
    for k := 0 to |points|
      invariant |r| == |r0|
      invariant CountsBinned(r0, cells[..k], r, m)
    {
      var idx := Index(points[k], origin, v, steps);
      var r' := r[idx := r[idx] + 1];
      var m' := if r'[idx] > m then r'[idx] else m;
      assert CountsBinned(r0, cells[..k + 1], r', m') by {
        assert idx == cells[k] && 0 <= idx < |r|;
        BinStep(r0, cells, k, idx, r, m, r', m');
      }
      r, m := r', m';
    }
    assert cells[..|points|] == cells;
  }

  /** Every sample lies within the extent the sampling generate computes. */
  lemma {:induction false} WithinExtent(points: seq<seq<real>>, a: nat, k: int)
    requires forall q :: 0 <= q < |points| ==> a < |points[q]|
    requires 0 <= k < |points|
    ensures MinCoord(points, a) <= points[k][a] <= MaxCoord(points, a)
  {
    var n := |points| - 1;
    if k < n {
      WithinExtent(points[..n], a, k);
      assert points[..n][k] == points[k];
    }
  }

  /** Every sample lies in the box spanned by the extent. */
  lemma SampleInBox(points: seq<seq<real>>, dim: nat, k: int)
    requires Uniform(points, dim) && 0 <= k < |points|
    ensures InBox(points[k], LowerExtent(points, dim), UpperExtent(points, dim))
  {
    forall a | 0 <= a < dim
      ensures LowerExtent(points, dim)[a] <= points[k][a] <= UpperExtent(points, dim)[a]
    {
      WithinExtent(points, a, k);
    }
  }

  /** With one more step per axis than the floor of the extent, every sample falls into a cell. */
  lemma CoveringBinsAllSamples(points: seq<seq<real>>, dim: nat, v: real)
    requires v > 0.0 && Uniform(points, dim)
    ensures AllBinned(points, LowerExtent(points, dim), v,
                      CoveringSteps(LowerExtent(points, dim), UpperExtent(points, dim), v))
  {
    forall k | 0 <= k < |points|
      ensures Index(points[k], LowerExtent(points, dim), v,
                    CoveringSteps(LowerExtent(points, dim), UpperExtent(points, dim), v)) >= 0
    {
      SampleInBox(points, dim, k);
      BoxPointBinnedUnderCovering(points[k], LowerExtent(points, dim), UpperExtent(points, dim), v);
    }
  }

  /** The step loop of the covering generate: floor of extent / voxel size, plus one. */
  method CoveringStepCounts(lower: seq<real>, upper: seq<real>, v: real) returns (steps: seq<int>, mapSize: int)
    requires |lower| == |upper| && v > 0.0
    ensures steps == CoveringSteps(lower, upper, v) && mapSize == Product(steps)
  {
    steps := [];
    mapSize := 1;
    for a := 0 to |lower|
      invariant |steps| == a
      invariant forall b :: 0 <= b < a ==> steps[b] == ((upper[b] - lower[b]) / v).Floor + 1
      invariant mapSize == Product(steps)
    {
      var n := ((upper[a] - lower[a]) / v).Floor + 1;
      ghost var prev := steps;
      steps := steps + [n];
      assert steps[..|steps| - 1] == prev;
      mapSize := mapSize * n;
    }
  }

  // ---------------------------------------------------------------------
  // The map
  // ---------------------------------------------------------------------

  /**
   * The last loop of grow: each cell gains its copy value with the sentinel
   * 2 folded back to 1, and the running maximum is raised to every new count.
   */
  method FoldCopy(r0: seq<int>, copy: seq<int>, m0: int) returns (r: seq<int>, m: int)
    requires |copy| == |r0|
    ensures |r| == |r0| && forall j :: 0 <= j < |r| ==> r[j] == r0[j] + Collapse(copy[j])
    ensures MaxUpdated(m0, r, m)
  {
    r, m := r0, m0;
    for i := 0 to |copy|
      invariant |r| == |r0|
      invariant forall j :: 0 <= j < |r| ==> r[j] == if j < i then r0[j] + Collapse(copy[j]) else r0[j]
      invariant MaxUpdated(m0, r[..i], m)
    {
      var copyValue := copy[i];
      if copyValue > 1 {
        copyValue := 1;
      }
      r := r[i := r[i] + copyValue];
      if r[i] > m {
        m := r[i];
      }
      assert r[..i + 1] == r[..i] + [r[i]];
    }
    assert r[..|r|] == r;
  }

  class ReachabilityMap {
    const voxelSize: real
    const dim: int
    /** Diagonal-inclusive offsets built by the constructor; grow does not use them. */
    const neighbours: seq<seq<int>>
    var epMin: seq<real>
    var epMax: seq<real>
    var steps: seq<int>
    var rMap: seq<int>
    var pMap: seq<int>
    var maxValue: int

    ghost predicate Valid()
      reads this
    {
      voxelSize > 0.0 && dim >= 0 && |epMin| == dim && |epMax| == dim &&
      |rMap| == |pMap| && maxValue >= 0
    }

    /** `max_value_` bounds every reach count. */
    ghost predicate Bounded()
      reads this
    {
      forall j :: 0 <= j < |rMap| ==> rMap[j] <= maxValue
    }

    /** The grid has been laid out by a generate call: one step count per axis, one cell per index. */
    ghost predicate Shaped()
      reads this
    {
      |steps| == dim && |rMap| == Product(steps)
    }

    /**
     * `max_value_` is left uninitialised by the source; the model starts it
     * at 0, and the bound vectors of length `dim` at 0.
     */
    constructor (voxelSize: real, dim: int)
      requires voxelSize > 0.0 && dim >= 0
      ensures Valid() && this.voxelSize == voxelSize && this.dim == dim
      ensures neighbours == MooreOffsets(dim)
      ensures steps == [] && rMap == [] && pMap == [] && maxValue == 0
    {
      this.voxelSize := voxelSize;
      this.dim := dim;
      neighbours := MooreOffsets(dim);
      epMin := seq(dim, _ => 0.0);
      epMax := seq(dim, _ => 0.0);
      steps := [];
      rMap := [];
      pMap := [];
      maxValue := 0;
    }

    /** getIndex: per-axis floor, bounds check and row-major accumulation. */
    method GetIndex(x: seq<real>) returns (idx: int)
      requires Valid() && |steps| == dim && |x| == dim
      ensures idx == Index(x, epMin, voxelSize, steps)
    {
      ghost var c := CellOf(x, epMin, voxelSize);
      var total := 0;
      var i := 0;
      while i < dim
        invariant 0 <= i <= dim
        invariant InBounds(steps[..i], c[..i])
        invariant total == Compose(steps[..i], c[..i])
      {
        var ci := ((x[i] - epMin[i]) / voxelSize).Floor;
        assert ci == c[i];
        if ci < 0 || ci >= steps[i] {
          assert !InBounds(steps, c);
          return -1;
        }
        assert steps[..i + 1][..i] == steps[..i] && c[..i + 1][..i] == c[..i];
        total := total * steps[i] + ci;
        i := i + 1;
      }
      assert steps[..dim] == steps && c[..dim] == c;
      return total;
    }

    /** One neighbour index: row-major composition of `d` with axis `a` moved by `delta`. */
    method ShiftedIndex(d: seq<int>, a: int, delta: int) returns (total: int)
      requires |steps| == dim && |d| == dim && 0 <= a < dim
      ensures total == Compose(steps, Shift(d, a, delta))
    {
      ghost var e := Shift(d, a, delta);
      total := 0;
      for b := 0 to dim
        invariant total == Compose(steps[..b], e[..b])
      {
        assert steps[..b + 1][..b] == steps[..b] && e[..b + 1][..b] == e[..b];
        if b == a {
          total := total * steps[b] + d[b] + delta;
        } else {
          total := total * steps[b] + d[b];
        }
      }
      assert steps[..dim] == steps && e[..dim] == e;
    }

    /**
     * getNeighbourIndices: per axis, the lower neighbour unless d[a] is 0 and
     * the upper one unless d[a] is steps[a] - 1.
     */
    method GetNeighbourIndices(d: seq<int>) returns (ns: seq<int>)
      requires |steps| == dim && |d| == dim
      ensures |ns| <= 2 * dim
      ensures ListsNeighbours(steps, d, ns)
    {
      ns := [];
      ghost var axes: seq<int> := [];
      for a := 0 to dim
        invariant |ns| <= 2 * a
        invariant Covered(steps, d, ns, a) && Witnessed(steps, d, ns, axes, a)
      {
        WitnessedWiden(steps, d, ns, axes, a);
        if d[a] > 0 {
          var t := ShiftedIndex(d, a, -1);
          CoveredAppend(steps, d, ns, t, a);
          WitnessedAppend(steps, d, ns, axes, a, t);
          ns, axes := ns + [t], axes + [a];
        }
        if d[a] < steps[a] - 1 {
          var t := ShiftedIndex(d, a, 1);
          CoveredAppend(steps, d, ns, t, a);
          WitnessedAppend(steps, d, ns, axes, a, t);
          ns, axes := ns + [t], axes + [a];
        }
        CoveredNext(steps, d, ns, a);
      }
      ListsNeighboursByAxes(steps, d, ns, axes);
    }

    /**
     * The marking pass of grow over the clamped copy: every zero cell that
     * is an axis neighbour of a positive cell of the original map becomes 2.
     * The source's two nested loops (dimension 2 and 3) visit the cells in
     * increasing row-major order; one loop over flat indices does the same,
     * and it runs only when every axis has at least one step, as the nested
     * loops do.
     */
    method MarkFrontier() returns (copy: seq<int>)
      requires Valid() && Shaped()
      ensures |copy| == |rMap|
      ensures forall j :: 0 <= j < |copy| ==> copy[j] == Marked(rMap, steps, j, |rMap|)
    {
      copy := rMap;
      for i := 0 to |copy|
        invariant |copy| == |rMap|
        invariant forall j :: 0 <= j < |copy| ==> copy[j] == if j < i then Marked(rMap, steps, j, 0) else rMap[j]
      {
        if copy[i] > 1 {
          copy := copy[i := 1];
        }
      }
      var cells := if AllPositive(steps) then |copy| else 0;
      for idx := 0 to cells
        invariant |copy| == |rMap|
        invariant forall j :: 0 <= j < |copy| ==> copy[j] == Marked(rMap, steps, j, idx)
      {
        if copy[idx] == 1 {
          var d := Decompose(steps, idx);
          ComposeDecompose(steps, idx);
          var ns := GetNeighbourIndices(d);
          NeighboursAreAdjacent(steps, d, ns);
          ghost var before := copy;
          copy := MarkNeighbours(copy, ns);
          MarkingAdvances(rMap, steps, idx, ns, before, copy);
        } else {
          forall j | 0 <= j < |copy| ensures copy[j] == Marked(rMap, steps, j, idx + 1) {
            ScanInactiveCell(rMap, steps, idx, j);
          }
        }
      }
      forall j | 0 <= j < |copy| ensures copy[j] == Marked(rMap, steps, j, |rMap|) {
        if !AllPositive(steps) {
          assert !ActiveBelow(rMap, steps, j, |rMap|);
        }
      }
    }

    /**
     * grow: one dilation step. Positive cells gain 1, negative cells are
     * doubled, and a zero cell gains 1 exactly when an axis neighbour was
     * positive before the call; a cell reached in this call does not pass
     * the growth on. Only dimensions 2 and 3 are handled.
     */
    method Grow()
      requires Valid() && ((dim == 2 || dim == 3) ==> Shaped())
      modifies this
      ensures Valid() && steps == old(steps) && epMin == old(epMin) && epMax == old(epMax)
      ensures pMap == old(pMap)
      ensures dim == 2 || dim == 3 ==> rMap == Grown(old(rMap), steps) && MaxUpdated(old(maxValue), rMap, maxValue)
      ensures dim != 2 && dim != 3 ==> rMap == old(rMap) && maxValue == old(maxValue)
    {
      if dim != 2 && dim != 3 {
        return;
      }
      var copy := MarkFrontier();
      var r, m := FoldCopy(rMap, copy, maxValue);
      assert r == Grown(rMap, steps) by {
        forall j | 0 <= j < |r| ensures r[j] == Grown(rMap, steps)[j] {
          assert Collapse(copy[j]) == GrowDelta(rMap, steps, j);
        }
      }
      rMap, maxValue := r, m;
    }

    /**
     * addMap: adds the other map's counts into this one over this map's
     * cells, raising the running maximum. The other map may be this one, in
     * which case every count doubles.
     */
    method AddMap(other: ReachabilityMap)
      requires Valid() && |other.rMap| >= |rMap|
      modifies this
      ensures Valid() && rMap == CellSum(old(rMap), old(other.rMap))
      ensures MaxUpdated(old(maxValue), rMap, maxValue) && Bounded()
      ensures steps == old(steps) && pMap == old(pMap) && epMin == old(epMin) && epMax == old(epMax)
    {
      ghost var r0 := rMap;
      ghost var o0 := other.rMap;
      ghost var m0 := maxValue;
      for i := 0 to |rMap|
        invariant |rMap| == |r0| && |o0| >= |r0|
        invariant other != this ==> other.rMap == o0
        invariant other == this ==> o0 == r0
        invariant forall j :: i <= j < |rMap| ==> rMap[j] == r0[j]
        invariant forall j :: 0 <= j < i ==> rMap[j] == r0[j] + o0[j]
        invariant MaxUpdated(m0, rMap[..i], maxValue)
        invariant Valid() && steps == old(steps) && pMap == old(pMap) && epMin == old(epMin) && epMax == old(epMax)
      {
        rMap := rMap[i := rMap[i] + other.rMap[i]];
        if rMap[i] > maxValue {
          maxValue := rMap[i];
        }
        assert rMap[..i + 1] == rMap[..i] + [rMap[i]];
      }
      assert rMap[..|rMap|] == rMap;
    }

    /** getMaxValue. */
    function MaxValue(): (m: real)
      reads this
      requires Valid()
      ensures m >= 0.0
      ensures Bounded() ==> forall j :: 0 <= j < |rMap| ==> rMap[j] as real <= m
    {
      maxValue as real
    }

    /**
     * getValue: 0 outside the grid, otherwise (reach - penalty) / max_value_
     * as a double; with a zero maximum the quotient is not finite.
     */
    function GetValue(x: seq<real>): (s: Score)
      reads this
      requires Valid() && Shaped() && |x| == dim
      ensures Index(x, epMin, voxelSize, steps) == -1 ==> s == Finite(0.0)
      ensures Index(x, epMin, voxelSize, steps) != -1 && maxValue == 0 ==> !s.Finite?
      ensures var i := Index(x, epMin, voxelSize, steps);
        i != -1 && maxValue > 0 && Bounded() && pMap[i] >= 0 ==> s.Finite? && s.value <= 1.0
    {
      var i := Index(x, epMin, voxelSize, steps);
      if i < 0 then Finite(0.0) else ScoreAtMostOne(rMap[i], pMap[i], maxValue); Ratio(rMap[i] - pMap[i], maxValue)
    }

    /** setValue: overwrites one count and raises the maximum; no effect outside the grid. */
    method SetValue(x: seq<real>, value: int)
      requires Valid() && Shaped() && |x| == dim
      modifies this
      ensures Valid() && Shaped()
      ensures steps == old(steps) && pMap == old(pMap) && epMin == old(epMin) && epMax == old(epMax)
      ensures var i := Index(x, epMin, voxelSize, steps);
        if i == -1 then rMap == old(rMap) && maxValue == old(maxValue)
        else rMap == old(rMap)[i := value] && maxValue == (if value > old(maxValue) then value else old(maxValue))
      ensures old(Bounded()) ==> Bounded()
    {
      var idx := GetIndex(x);
      if idx < 0 {
        return;
      }
      rMap := rMap[idx := value];
      if rMap[idx] > maxValue {
        maxValue := rMap[idx];
      }
    }

    /** clear: every reach count and the maximum become 0; penalties are kept. */
    method Clear()
      requires Valid()
      modifies this
      ensures Valid() && Bounded()
      ensures rMap == Zeros(|old(rMap)|) && maxValue == 0
      ensures steps == old(steps) && pMap == old(pMap) && epMin == old(epMin) && epMax == old(epMax)
    {
      for i := 0 to |rMap|
        invariant |rMap| == |old(rMap)|
        invariant forall j :: 0 <= j < |rMap| ==> rMap[j] == if j < i then 0 else old(rMap)[j]
        invariant steps == old(steps) && pMap == old(pMap) && epMin == old(epMin) && epMax == old(epMax)
        invariant maxValue == old(maxValue) && maxValue >= 0
      {
        rMap := rMap[i := 0];
      }
      maxValue := 0;
    }

    /** addPenalty: the penalty of the cell holding `x` grows by the current maximum. */
    method AddPenalty(x: seq<real>)
      requires Valid() && Shaped() && |x| == dim
      modifies this
      ensures Valid() && Shaped()
      ensures steps == old(steps) && rMap == old(rMap) && maxValue == old(maxValue)
      ensures epMin == old(epMin) && epMax == old(epMax)
      ensures var i := Index(x, epMin, voxelSize, steps);
        pMap == if i == -1 then old(pMap) else old(pMap)[i := old(pMap)[i] + maxValue]
      ensures old(GetValue(x)).Finite? && maxValue > 0 && Index(x, epMin, voxelSize, steps) != -1 ==>
        GetValue(x) == Finite(old(GetValue(x)).value - 1.0)
    {
      var idx := GetIndex(x);
      if idx >= 0 {
        pMap := pMap[idx := pMap[idx] + maxValue];
        if maxValue > 0 {
          PenaltyLowersScore(rMap[idx], old(pMap)[idx], maxValue);
        }
      }
    }

    /** resetPenalty: every penalty becomes 0. */
    method ResetPenalty()
      requires Valid()
      modifies this
      ensures Valid()
      ensures pMap == Zeros(|old(pMap)|)
      ensures steps == old(steps) && rMap == old(rMap) && maxValue == old(maxValue)
      ensures epMin == old(epMin) && epMax == old(epMax)
    {
      for i := 0 to |pMap|
        invariant |pMap| == |old(pMap)|
        invariant forall j :: 0 <= j < |pMap| ==> pMap[j] == if j < i then 0 else old(pMap)[j]
        invariant steps == old(steps) && rMap == old(rMap) && maxValue == old(maxValue)
        invariant epMin == old(epMin) && epMax == old(epMax)
      {
        pMap := pMap[i := 0];
      }
    }

    /**
     * generate(lower, upper): takes the bounds, one step count per axis
     * (the ceiling of extent / voxel size) and resizes both grids to the
     * product of the step counts. `resize` keeps the cells an earlier grid
     * already had; only the maximum is reset.
     */
    method Generate(lower: seq<real>, upper: seq<real>)
      requires Valid() && |lower| == dim && |upper| == dim
      requires Product(StepsFor(lower, upper, voxelSize)) >= 0
      modifies this
      ensures Valid() && Shaped()
      ensures epMin == lower && epMax == upper && steps == StepsFor(lower, upper, voxelSize)
      ensures rMap == Resized(old(rMap), Product(steps)) && pMap == Resized(old(pMap), Product(steps))
      ensures maxValue == 0
    {
      epMin := lower;
      epMax := upper;
      steps := [];
      var mapSize := 1;
      for a := 0 to dim
        invariant |steps| == a
        invariant forall b :: 0 <= b < a ==> steps[b] == Ceil((upper[b] - lower[b]) / voxelSize)
        invariant mapSize == Product(steps)
        invariant epMin == lower && epMax == upper && rMap == old(rMap) && pMap == old(pMap)
      {
        var n := Ceil((upper[a] - lower[a]) / voxelSize);
        ghost var prev := steps;
        steps := steps + [n];
        assert steps[..|steps| - 1] == prev;
        mapSize := mapSize * n;
      }
      assert steps == StepsFor(lower, upper, voxelSize);
      rMap := Resized(rMap, mapSize);
      pMap := Resized(pMap, mapSize);
      maxValue := 0;
    }

    /**
     * The part of the sampling generate that follows the collision-free
     * end-effector positions: the per-axis extent of the samples (starting
     * from 1000000 and -1000000), the grid of generate(lower, upper) over
     * that extent, and one count per sample in the cell it falls into.
     * Every sample must fall into a cell: the source increments index -1
     * otherwise.
     */
    method GenerateFromSamples(points: seq<seq<real>>)
      requires Valid() && Uniform(points, dim)
      requires Product(StepsFor(LowerExtent(points, dim), UpperExtent(points, dim), voxelSize)) >= 0
      requires AllBinned(points, LowerExtent(points, dim), voxelSize,
                         StepsFor(LowerExtent(points, dim), UpperExtent(points, dim), voxelSize))
      modifies this
      ensures Valid() && Shaped()
      ensures epMin == LowerExtent(points, dim) && epMax == UpperExtent(points, dim)
      ensures steps == StepsFor(epMin, epMax, voxelSize)
      ensures pMap == Resized(old(pMap), Product(steps))
      ensures CountsBinned(Resized(old(rMap), Product(steps)), BinIndices(points, epMin, voxelSize, steps), rMap, maxValue)
    {
      var lo, hi := SampleExtent(points, dim);
      Generate(lo, hi);

      BinSamples(points);
    }

    /** The binning step of the sampling generate, over this map's geometry. */
    method BinSamples(points: seq<seq<real>>)
      requires Valid() && Shaped() && maxValue == 0 && Uniform(points, dim)
      requires AllBinned(points, epMin, voxelSize, steps)
      modifies this
      ensures Valid() && Shaped()
      ensures steps == old(steps) && pMap == old(pMap) && epMin == old(epMin) && epMax == old(epMax)
      ensures CountsBinned(old(rMap), BinIndices(points, epMin, voxelSize, steps), rMap, maxValue)
    {
      var r, m := BinCounts(points, epMin, voxelSize, steps, rMap);
      rMap, maxValue := r, m;
    }

    /**
     * The sampling generate with one more step per axis than the floor of
     * the extent, so that the cell of the largest coordinate exists and
     * every sample is counted, whatever the samples.
     */
    method GenerateCoveringFromSamples(points: seq<seq<real>>)
      requires Valid() && Uniform(points, dim)
      requires Product(CoveringSteps(LowerExtent(points, dim), UpperExtent(points, dim), voxelSize)) >= 0
      modifies this
      ensures Valid() && Shaped()
      ensures epMin == LowerExtent(points, dim) && epMax == UpperExtent(points, dim)
      ensures steps == CoveringSteps(epMin, epMax, voxelSize)
      ensures pMap == Resized(old(pMap), Product(steps))
      ensures CountsBinned(Resized(old(rMap), Product(steps)), BinIndices(points, epMin, voxelSize, steps), rMap, maxValue)
    {
      var lo, hi := SampleExtent(points, dim);
      var newSteps, mapSize := CoveringStepCounts(lo, hi, voxelSize);
      epMin := lo;
      epMax := hi;
      steps := newSteps;
      rMap := Resized(rMap, mapSize);
      pMap := Resized(pMap, mapSize);
      maxValue := 0;
      CoveringBinsAllSamples(points, dim, voxelSize);
      BinSamples(points);
    }
  }
}
