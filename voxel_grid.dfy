/**
 * Voxel indexing for the reachability grid: per-axis cell coordinates, their
 * row-major composition into one flat index (axis 0 most significant), its
 * inverse, the step counts derived from an extent, and the point-to-cell map
 * of ReachabilityMap::getIndex. Reals are an exact idealisation of the
 * source's doubles.
 */
module VoxelGrid {

  /** Number of cells of a grid with these per-axis step counts (`map_size`). */
  function Product(steps: seq<int>): int
  {
    if |steps| == 0 then 1 else Product(steps[..|steps| - 1]) * steps[|steps| - 1]
  }

  predicate AllPositive(steps: seq<int>)
  {
    forall i :: 0 <= i < |steps| ==> steps[i] > 0
  }

  /** `c` names a cell of the grid: one coordinate per axis, each in [0, steps[i]). */
  predicate InBounds(steps: seq<int>, c: seq<int>)
  {
    |c| == |steps| && forall i :: 0 <= i < |c| ==> 0 <= c[i] < steps[i]
  }

  /** Row-major composition `total = total * steps[i] + c[i]` over the axes in order. */
  function Compose(steps: seq<int>, c: seq<int>): int
    requires |c| == |steps|
  {
    if |c| == 0 then 0
    else Compose(steps[..|steps| - 1], c[..|c| - 1]) * steps[|steps| - 1] + c[|c| - 1]
  }

  /** The cell coordinates of a flat index: the inverse of Compose. */
  function Decompose(steps: seq<int>, idx: int): (c: seq<int>)
    requires AllPositive(steps)
    ensures |c| == |steps|
  {
    if |steps| == 0 then []
    else
      var n := |steps| - 1;
      Decompose(steps[..n], idx / steps[n]) + [idx % steps[n]]
  }

  lemma InBoundsPositive(steps: seq<int>, c: seq<int>)
    requires InBounds(steps, c)
    ensures AllPositive(steps)
  {
    forall i | 0 <= i < |steps| ensures steps[i] > 0 {
      assert 0 <= c[i] < steps[i];
    }
  }

  lemma MulMonotone(a: int, b: int, m: int)
    requires a <= b && m >= 0
    ensures a * m <= b * m
  {
    assert b * m - a * m == (b - a) * m;
  }

  /** Euclidean division recovers the digits of `q * m + r`. */
  lemma DivModDigits(q: int, r: int, m: int)
    requires 0 <= r < m
    ensures (q * m + r) / m == q && (q * m + r) % m == r
  {
    var n := q * m + r;
    var q', r' := n / m, n % m;
    assert q' * m + r' == q * m + r;
    assert (q' - q) * m == r - r';
    if q' > q {
      MulMonotone(1, q' - q, m);
    } else if q' < q {
      MulMonotone(1, q - q', m);
    }
  }

  /** Every in-bounds cell composes to a flat index in [0, Product(steps)). */
  lemma {:induction false} ComposeInRange(steps: seq<int>, c: seq<int>)
    requires InBounds(steps, c)
    ensures 0 <= Compose(steps, c) < Product(steps)
  {
    if |c| > 0 {
      var n := |c| - 1;
      assert InBounds(steps[..n], c[..n]);
      ComposeInRange(steps[..n], c[..n]);
      var hi := Compose(steps[..n], c[..n]);
      var p := Product(steps[..n]);
      MulMonotone(0, hi, steps[n]);
      MulMonotone(hi, p - 1, steps[n]);
      assert Compose(steps, c) == hi * steps[n] + c[n];
      assert Product(steps) == p * steps[n];
    }
  }

  /** Decompose undoes Compose on in-bounds cells. */
  lemma {:induction false} DecomposeCompose(steps: seq<int>, c: seq<int>)
    requires InBounds(steps, c)
    ensures AllPositive(steps) && Decompose(steps, Compose(steps, c)) == c
  {
    InBoundsPositive(steps, c);
    if |c| > 0 {
      var n := |c| - 1;
      assert InBounds(steps[..n], c[..n]);
      DecomposeCompose(steps[..n], c[..n]);
      var hi := Compose(steps[..n], c[..n]);
      DivModDigits(hi, c[n], steps[n]);
      assert c == c[..n] + [c[n]];
    }
  }

  /** Compose undoes Decompose on flat indices of the grid, and the cell is in bounds. */
  lemma {:induction false} ComposeDecompose(steps: seq<int>, idx: int)
    requires AllPositive(steps) && 0 <= idx < Product(steps)
    ensures InBounds(steps, Decompose(steps, idx))
    ensures Compose(steps, Decompose(steps, idx)) == idx
  {
    if |steps| > 0 {
      var n := |steps| - 1;
      var s := steps[n];
      var q := idx / s;
      assert Product(steps) == Product(steps[..n]) * s;
      assert q * s + idx % s == idx;
      if q >= Product(steps[..n]) {
        MulMonotone(Product(steps[..n]), q, s);
        assert false;
      }
      MulMonotone(0, q, s);
      assert AllPositive(steps[..n]);
      ComposeDecompose(steps[..n], q);
      var c := Decompose(steps, idx);
      assert c[..n] == Decompose(steps[..n], q);
    }
  }

  /** `c` with its coordinate on axis `a` moved by `delta`. */
  function Shift(c: seq<int>, a: int, delta: int): (e: seq<int>)
    requires 0 <= a < |c|
    ensures |e| == |c| && e[a] == c[a] + delta
    ensures forall b :: 0 <= b < |c| && b != a ==> e[b] == c[b]
  {
    c[a := c[a] + delta]
  }

  /** Axis-aligned (von Neumann) adjacency: the cells differ on exactly one axis, by exactly one. */
  predicate Adjacent(c: seq<int>, e: seq<int>)
  {
    |c| == |e| &&
    exists a :: 0 <= a < |c| && (e[a] == c[a] + 1 || e[a] == c[a] - 1) &&
      forall b :: 0 <= b < |c| && b != a ==> e[b] == c[b]
  }

  /**
   * `j` is the flat index of the lower neighbour of `d` on axis `a`, added
   * when d[a] > 0, or of its upper neighbour, added when d[a] < steps[a] - 1.
   */
  predicate StepsTo(steps: seq<int>, d: seq<int>, a: int, j: int)
    requires |d| == |steps| && 0 <= a < |d|
  {
    (d[a] > 0 && j == Compose(steps, Shift(d, a, -1))) ||
    (d[a] < steps[a] - 1 && j == Compose(steps, Shift(d, a, 1)))
  }

  /** `j` is one of the neighbour indices getNeighbourIndices adds for `d`. */
  predicate NeighbourIndex(steps: seq<int>, d: seq<int>, j: int)
    requires |d| == |steps|
  {
    exists a :: 0 <= a < |d| && StepsTo(steps, d, a, j)
  }

  /** `ns` holds every neighbour index getNeighbourIndices adds for `d`, and nothing else. */
  predicate ListsNeighbours(steps: seq<int>, d: seq<int>, ns: seq<int>)
    requires |d| == |steps|
  {
    (forall a :: 0 <= a < |d| ==>
       (d[a] > 0 ==> Compose(steps, Shift(d, a, -1)) in ns) &&
       (d[a] < steps[a] - 1 ==> Compose(steps, Shift(d, a, 1)) in ns)) &&
    (forall k :: 0 <= k < |ns| ==> NeighbourIndex(steps, d, ns[k]))
  }

  /** A listed neighbour is a valid flat index of an axis-aligned neighbour. */
  lemma ListedIsAdjacent(steps: seq<int>, d: seq<int>, a: int, j: int)
    requires InBounds(steps, d) && 0 <= a < |d| && StepsTo(steps, d, a, j)
    ensures AllPositive(steps) && 0 <= j < Product(steps) && Adjacent(d, Decompose(steps, j))
  {
    var delta := if d[a] > 0 && j == Compose(steps, Shift(d, a, -1)) then -1 else 1;
    var e := Shift(d, a, delta);
    assert j == Compose(steps, e);
    assert InBounds(steps, e);
    ComposeInRange(steps, e);
    DecomposeCompose(steps, e);
    assert Decompose(steps, j) == e;
  }

  /** The neighbours of `d` along the axes below `a` are all in `ns`. */
  ghost predicate Covered(steps: seq<int>, d: seq<int>, ns: seq<int>, a: int)
    requires |d| == |steps|
  {
    forall b :: 0 <= b < a && b < |d| ==>
      (d[b] > 0 ==> Compose(steps, Shift(d, b, -1)) in ns) &&
      (d[b] < steps[b] - 1 ==> Compose(steps, Shift(d, b, 1)) in ns)
  }

  /** Every index in `ns` is a neighbour of `d` along its recorded axis, which is below `a`. */
  ghost predicate Witnessed(steps: seq<int>, d: seq<int>, ns: seq<int>, axes: seq<int>, a: int)
    requires |d| == |steps|
  {
    |axes| == |ns| &&
    forall k :: 0 <= k < |ns| ==> 0 <= axes[k] < a && axes[k] < |d| && StepsTo(steps, d, axes[k], ns[k])
  }

  lemma CoveredAppend(steps: seq<int>, d: seq<int>, ns: seq<int>, j: int, a: int)
    requires |d| == |steps| && Covered(steps, d, ns, a)
    ensures Covered(steps, d, ns + [j], a)
  {
  }

  /** Once both neighbours along axis `a` are present, axis `a` is covered too. */
  lemma CoveredNext(steps: seq<int>, d: seq<int>, ns: seq<int>, a: int)
    requires |d| == |steps| && 0 <= a < |d| && Covered(steps, d, ns, a)
    requires d[a] > 0 ==> Compose(steps, Shift(d, a, -1)) in ns
    requires d[a] < steps[a] - 1 ==> Compose(steps, Shift(d, a, 1)) in ns
    ensures Covered(steps, d, ns, a + 1)
  {
  }

  lemma WitnessedWiden(steps: seq<int>, d: seq<int>, ns: seq<int>, axes: seq<int>, a: int)
    requires |d| == |steps| && Witnessed(steps, d, ns, axes, a)
    ensures Witnessed(steps, d, ns, axes, a + 1)
  {
  }

  /** Appending a neighbour along axis `a` with its witness keeps every index witnessed. */
  lemma WitnessedAppend(steps: seq<int>, d: seq<int>, ns: seq<int>, axes: seq<int>, a: int, j: int)
    requires |d| == |steps| && 0 <= a < |d| && Witnessed(steps, d, ns, axes, a + 1)
    requires StepsTo(steps, d, a, j)
    ensures Witnessed(steps, d, ns + [j], axes + [a], a + 1)
  {
    var ns', axes' := ns + [j], axes + [a];
    forall k | 0 <= k < |ns'| ensures 0 <= axes'[k] < a + 1 && axes'[k] < |d| && StepsTo(steps, d, axes'[k], ns'[k]) {
      if k < |ns| {
        assert ns'[k] == ns[k] && axes'[k] == axes[k];
      }
    }
  }

  /** ListsNeighbours from a witness axis for every listed index. */
  lemma ListsNeighboursByAxes(steps: seq<int>, d: seq<int>, ns: seq<int>, axes: seq<int>)
    requires |d| == |steps| && Covered(steps, d, ns, |d|) && Witnessed(steps, d, ns, axes, |d|)
    ensures ListsNeighbours(steps, d, ns)
  {
    forall k | 0 <= k < |ns| ensures NeighbourIndex(steps, d, ns[k]) {
      var a := axes[k];
      assert 0 <= a < |d| && StepsTo(steps, d, a, ns[k]);
    }
  }

  /** An adjacent cell is a shift of one coordinate by plus or minus one. */
  lemma AdjacentIsShift(d: seq<int>, e: seq<int>) returns (a: int, delta: int)
    requires Adjacent(d, e)
    ensures 0 <= a < |d| && (delta == 1 || delta == -1) && e == Shift(d, a, delta)
  {
    a :| 0 <= a < |d| && (e[a] == d[a] + 1 || e[a] == d[a] - 1) &&
      forall b :: 0 <= b < |d| && b != a ==> e[b] == d[b];
    delta := e[a] - d[a];
    var f := Shift(d, a, delta);
    forall b | 0 <= b < |e| ensures e[b] == f[b] {
      if b != a { assert e[b] == d[b]; }
    }
  }

  /** Every valid flat index of an axis-aligned neighbour is one getNeighbourIndices adds. */
  lemma AdjacentIsListed(steps: seq<int>, d: seq<int>, ns: seq<int>, j: int)
    requires InBounds(steps, d) && AllPositive(steps) && 0 <= j < Product(steps)
    requires ListsNeighbours(steps, d, ns)
    requires Adjacent(d, Decompose(steps, j))
    ensures j in ns
  {
    var e := Decompose(steps, j);
    ComposeDecompose(steps, j);
    var a, delta := AdjacentIsShift(d, e);
    assert 0 <= e[a] < steps[a];
    assert j == Compose(steps, Shift(d, a, delta));
  }

  /**
   * For an in-bounds cell, the listed indices are exactly the valid flat
   * indices of its axis-aligned neighbours.
   */
  lemma NeighboursAreAdjacent(steps: seq<int>, d: seq<int>, ns: seq<int>)
    requires InBounds(steps, d) && ListsNeighbours(steps, d, ns)
    ensures AllPositive(steps)
    ensures forall k :: 0 <= k < |ns| ==> 0 <= ns[k] < Product(steps) && Adjacent(d, Decompose(steps, ns[k]))
    ensures forall j :: 0 <= j < Product(steps) && Adjacent(d, Decompose(steps, j)) ==> j in ns
  {
    InBoundsPositive(steps, d);
    forall k | 0 <= k < |ns|
      ensures 0 <= ns[k] < Product(steps) && Adjacent(d, Decompose(steps, ns[k]))
    {
      var a :| 0 <= a < |d| && StepsTo(steps, d, a, ns[k]);
      ListedIsAdjacent(steps, d, a, ns[k]);
    }
    forall j | 0 <= j < Product(steps) && Adjacent(d, Decompose(steps, j))
      ensures j in ns
    {
      AdjacentIsListed(steps, d, ns, j);
    }
  }

  /** Ceiling of a real, as `ceil` in the source. */
  function Ceil(r: real): (c: int)
    ensures c as real - 1.0 < r <= c as real
  {
    -((-r).Floor)
  }

  /** `steps_[i] = ceil((upper[i] - lower[i]) / v)` for every axis. */
  function StepsFor(lower: seq<real>, upper: seq<real>, v: real): (steps: seq<int>)
    requires |lower| == |upper| && v > 0.0
    ensures |steps| == |lower|
  {
    seq(|lower|, i requires 0 <= i < |lower| => Ceil((upper[i] - lower[i]) / v))
  }

  /** Per-axis cell coordinate of a point: `floor((x[i] - origin[i]) / v)`. */
  function CellOf(x: seq<real>, origin: seq<real>, v: real): (c: seq<int>)
    requires |x| == |origin| && v > 0.0
    ensures |c| == |x|
  {
    seq(|x|, i requires 0 <= i < |x| => ((x[i] - origin[i]) / v).Floor)
  }

  /**
   * The flat index of the cell holding `x`, or -1 when some axis falls
   * outside the grid (ReachabilityMap::getIndex).
   */
  function Index(x: seq<real>, origin: seq<real>, v: real, steps: seq<int>): (r: int)
    requires |x| == |origin| == |steps| && v > 0.0
    ensures r == -1 <==> exists i :: 0 <= i < |x| && (CellOf(x, origin, v)[i] < 0 || CellOf(x, origin, v)[i] >= steps[i])
    ensures r != -1 ==> 0 <= r < Product(steps) && AllPositive(steps)
    ensures r != -1 ==> Decompose(steps, r) == CellOf(x, origin, v)
  {
    var c := CellOf(x, origin, v);
    if InBounds(steps, c) then
      ComposeInRange(steps, c);
      DecomposeCompose(steps, c);
      Compose(steps, c)
    else
      -1
  }

  /** `x` lies in the closed box [lower, upper]. */
  predicate InBox(x: seq<real>, lower: seq<real>, upper: seq<real>)
  {
    |x| == |lower| == |upper| && forall i :: 0 <= i < |x| ==> lower[i] <= x[i] <= upper[i]
  }

  /** The real `r` is a whole number. */
  predicate Whole(r: real)
  {
    r.Floor as real == r
  }

  /**
   * With `steps = StepsFor(lower, upper, v)`, a point of the closed box
   * [lower, upper] falls outside the grid exactly when, on some axis, it sits
   * on the upper face and that axis' extent is a whole number of voxels
   * (including an extent of zero).
   */
  lemma BoxPointOutsideIff(x: seq<real>, lower: seq<real>, upper: seq<real>, v: real)
    requires v > 0.0 && InBox(x, lower, upper)
    ensures Index(x, lower, v, StepsFor(lower, upper, v)) == -1
        <==> exists i :: 0 <= i < |x| && x[i] == upper[i] && Whole((upper[i] - lower[i]) / v)
  {
    var steps := StepsFor(lower, upper, v);
    var c := CellOf(x, lower, v);
    forall i | 0 <= i < |x|
      ensures (c[i] < 0 || c[i] >= steps[i]) <==> x[i] == upper[i] && Whole((upper[i] - lower[i]) / v)
    {
      var e := (upper[i] - lower[i]) / v;
      var f := (x[i] - lower[i]) / v;
      assert 0.0 <= f <= e by {
        assert x[i] - lower[i] <= upper[i] - lower[i];
      }
      assert c[i] == f.Floor && steps[i] == Ceil(e);
      if x[i] < upper[i] {
        assert f < e by {
          assert (x[i] - lower[i]) < (upper[i] - lower[i]);
        }
      } else {
        assert f == e;
      }
    }
  }

  /**
   * One more step than the whole number of voxels in the extent: the step
   * count under which every point of the closed box is binned.
   */
  function CoveringSteps(lower: seq<real>, upper: seq<real>, v: real): (steps: seq<int>)
    requires |lower| == |upper| && v > 0.0
    ensures |steps| == |lower|
  {
    seq(|lower|, i requires 0 <= i < |lower| => ((upper[i] - lower[i]) / v).Floor + 1)
  }

  /** Under CoveringSteps every point of the box gets a valid flat index. */
  lemma BoxPointBinnedUnderCovering(x: seq<real>, lower: seq<real>, upper: seq<real>, v: real)
    requires v > 0.0 && InBox(x, lower, upper)
    ensures 0 <= Index(x, lower, v, CoveringSteps(lower, upper, v)) < Product(CoveringSteps(lower, upper, v))
  {
    var steps := CoveringSteps(lower, upper, v);
    var c := CellOf(x, lower, v);
    forall i | 0 <= i < |x| ensures 0 <= c[i] < steps[i] {
      var e := (upper[i] - lower[i]) / v;
      var f := (x[i] - lower[i]) / v;
      assert 0.0 <= f <= e by {
        assert x[i] - lower[i] <= upper[i] - lower[i];
      }
      assert c[i] == f.Floor && steps[i] == e.Floor + 1;
    }
    assert InBounds(steps, c);
  }
}
