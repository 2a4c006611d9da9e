/**
 * Properties of the reachability grid model: the dilation grow performs,
 * concrete grow results, penalties against scores, and the sample extent
 * with the binning it feeds.
 */
module ReachabilityLemmas {
  import opened VoxelGrid
  import opened Reachability

  // ---------------------------------------------------------------------
  // grow
  // ---------------------------------------------------------------------

  /** Cell layout of a two-axis grid: the first axis is the slower one. */
  lemma DecomposeTwo(s0: int, s1: int, j: int)
    requires s0 > 0 && s1 > 0
    ensures Decompose([s0, s1], j) == [(j / s1) % s0, j % s1]
  {
    assert [s0, s1][..1] == [s0];
    assert [s0][..0] == [];
  }

  /** Neighbours on a two-axis grid: one axis equal and the other one apart. */
  lemma AdjacentTwo(c: seq<int>, e: seq<int>)
    requires |c| == 2 && |e| == 2
    ensures Adjacent(c, e) <==>
      (c[0] == e[0] && (e[1] == c[1] + 1 || e[1] == c[1] - 1)) ||
      (c[1] == e[1] && (e[0] == c[0] + 1 || e[0] == c[0] - 1))
  {
    if c[0] == e[0] && (e[1] == c[1] + 1 || e[1] == c[1] - 1) {
      assert forall b :: 0 <= b < 2 && b != 1 ==> e[b] == c[b];
    }
    if c[1] == e[1] && (e[0] == c[0] + 1 || e[0] == c[0] - 1) {
      assert forall b :: 0 <= b < 2 && b != 0 ==> e[b] == c[b];
    }
  }

  /**
   * On a map without negative counts, the cells that are positive after grow
   * are the ones positive before together with their axis neighbours: one
   * layer of dilation.
   */
  lemma GrowDilates(r: seq<int>, steps: seq<int>, j: int)
    requires forall i :: 0 <= i < |r| ==> r[i] >= 0
    requires 0 <= j < |r|
    ensures Grown(r, steps)[j] > 0 <==> r[j] > 0 || exists i :: 0 <= i < |r| && r[i] > 0 && Linked(steps, i, j)
    ensures Grown(r, steps)[j] >= r[j]
  {
    if exists i :: 0 <= i < |r| && r[i] > 0 && Linked(steps, i, j) {
      assert ActiveBelow(r, steps, j, |r|);
    }
  }

  /** With a single counted cell, a cell is reached exactly when it neighbours that one. */
  lemma SingleSource(r: seq<int>, steps: seq<int>, src: int, j: int)
    requires 0 <= src < |r| && forall i :: 0 <= i < |r| ==> (r[i] > 0 <==> i == src)
    ensures ActiveBelow(r, steps, j, |r|) <==> Linked(steps, src, j)
  {
    if Linked(steps, src, j) {
      assert r[src] > 0;
    }
  }

  /** The cells of the 3 x 3 grid that neighbour its centre. */
  lemma CentreNeighbour(j: int)
    requires 0 <= j < 9
    ensures Linked([3, 3], 4, j) <==> j == 1 || j == 3 || j == 5 || j == 7
  {
    DecomposeTwo(3, 3, j);
    DecomposeTwo(3, 3, 4);
    var e := Decompose([3, 3], j);
    assert Decompose([3, 3], 4) == [1, 1];
    assert e == [j / 3, j % 3];
    AdjacentTwo([1, 1], e);
    if j == 0 { assert e == [0, 0]; }
    else if j == 1 { assert e == [0, 1]; }
    else if j == 2 { assert e == [0, 2]; }
    else if j == 3 { assert e == [1, 0]; }
    else if j == 4 { assert e == [1, 1]; }
    else if j == 5 { assert e == [1, 2]; }
    else if j == 6 { assert e == [2, 0]; }
    else if j == 7 { assert e == [2, 1]; }
    else { assert e == [2, 2]; }
  }

  /** Growing a map whose only count is the centre of a 3 x 3 grid. */
  lemma GrowCentre()
    ensures Grown([0, 0, 0, 0, 1, 0, 0, 0, 0], [3, 3]) == [0, 1, 0, 1, 2, 1, 0, 1, 0]
  {
    var g := Grown([0, 0, 0, 0, 1, 0, 0, 0, 0], [3, 3]);
    forall j | 0 <= j < 9 ensures g[j] == [0, 1, 0, 1, 2, 1, 0, 1, 0][j] {
      GrowCentreCell(j);
    }
  }

  /** One cell of the example above. */
  lemma GrowCentreCell(j: int)
    requires 0 <= j < 9
    ensures Grown([0, 0, 0, 0, 1, 0, 0, 0, 0], [3, 3])[j] == [0, 1, 0, 1, 2, 1, 0, 1, 0][j]
  {
    var r := [0, 0, 0, 0, 1, 0, 0, 0, 0];
    forall i | 0 <= i < 9 ensures r[i] > 0 <==> i == 4 { }
    SingleSource(r, [3, 3], 4, j);
    CentreNeighbour(j);
  }

  /**
   * A cell reached in one grow does not pass the growth on: in a row of
   * three cells only the neighbour of the counted cell gains.
   */
  lemma GrowDoesNotChain()
    ensures Grown([1, 0, 0], [1, 3]) == [2, 1, 0]
  {
    var r := [1, 0, 0];
    var steps := [1, 3];
    var g := Grown(r, steps);
    forall i | 0 <= i < 3 ensures r[i] > 0 <==> i == 0 { }
    DecomposeTwo(1, 3, 0);
    DecomposeTwo(1, 3, 1);
    DecomposeTwo(1, 3, 2);
    AdjacentTwo([0, 0], [0, 1]);
    AdjacentTwo([0, 0], [0, 2]);
    assert Linked(steps, 0, 1);
    assert ActiveBelow(r, steps, 1, 3);
    assert g[2] == 0;
  }

  // ---------------------------------------------------------------------
  // Scores and penalties
  // ---------------------------------------------------------------------

  /** `n` penalties of one maximum each lower a finite score by `n`. */
  lemma {:induction false} RepeatedPenalties(r: int, p: int, m: int, n: nat)
    requires m > 0
    ensures Ratio(r - (p + n * m), m) == Finite(Ratio(r - p, m).value - n as real)
  {
    if n > 0 {
      RepeatedPenalties(r, p, m, n - 1);
      PenaltyLowersScore(r, p + (n - 1) * m, m);
      assert p + (n - 1) * m + m == p + n * m;
    }
  }

  /** A cell whose penalty has reached its count scores at most 0. */
  lemma PenalisedCellScoresNothing(r: int, p: int, m: int)
    requires m > 0 && p >= r
    ensures Ratio(r - p, m).Finite? && Ratio(r - p, m).value <= 0.0
  {
    assert (r - p) as real <= 0.0;
  }

  // ---------------------------------------------------------------------
  // The sampling generate
  // ---------------------------------------------------------------------

  /**
   * As written: a sample that attains the largest coordinate on an axis
   * whose extent is a whole number of voxels has floor index equal to the
   * step count there, so it falls outside the grid.
   */
  lemma ExtremeSampleNotBinned(points: seq<seq<real>>, dim: nat, v: real, k: int, a: int)
    requires v > 0.0 && Uniform(points, dim) && 0 <= k < |points| && 0 <= a < dim
    requires points[k][a] == MaxCoord(points, a)
    requires Whole((MaxCoord(points, a) - MinCoord(points, a)) / v)
    ensures Index(points[k], LowerExtent(points, dim), v,
                  StepsFor(LowerExtent(points, dim), UpperExtent(points, dim), v)) == -1
    ensures !AllBinned(points, LowerExtent(points, dim), v,
                       StepsFor(LowerExtent(points, dim), UpperExtent(points, dim), v))
  {
    var lo, hi := LowerExtent(points, dim), UpperExtent(points, dim);
    SampleInBox(points, dim, k);
    BoxPointOutsideIff(points[k], lo, hi, v);
    assert points[k][a] == hi[a] && Whole((hi[a] - lo[a]) / v);
  }

  /** As written: a run with a single sample strictly inside +-1000000 never bins it. */
  lemma SingleSampleNotBinned(p: seq<real>, v: real)
    requires v > 0.0 && |p| >= 1 && -1000000.0 < p[0] < 1000000.0
    ensures !AllBinned([p], LowerExtent([p], |p|), v, StepsFor(LowerExtent([p], |p|), UpperExtent([p], |p|), v))
  {
    var points := [p];
    assert points[..0] == [];
    assert MaxCoord(points, 0) == p[0] && MinCoord(points, 0) == p[0];
    assert Whole((MaxCoord(points, 0) - MinCoord(points, 0)) / v);
    ExtremeSampleNotBinned(points, |p|, v, 0, 0);
  }
}
