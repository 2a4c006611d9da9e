/**
 * Properties of the joint-limit model: the clamp, the two repulsion bands
 * and their edges, the projector the activations define, and the count of
 * active joints.
 */
module JointLimitLemmas {
  import opened JointLimits

  // ---------------------------------------------------------------------
  // jointLimitTrq
  // ---------------------------------------------------------------------

  /** Positions beyond a limit respond like the limit itself. */
  lemma ClampInvariance(hl: real, ll: real, ls: real, rMax: real, q: real)
    requires ll <= hl
    ensures JointLimitTrq(hl, ll, ls, rMax, q) == JointLimitTrq(hl, ll, ls, rMax, Clamp(q, ll, hl))
    ensures q >= hl ==> JointLimitTrq(hl, ll, ls, rMax, q) == JointLimitTrq(hl, ll, ls, rMax, hl)
    ensures q <= ll ==> JointLimitTrq(hl, ll, ls, rMax, q) == JointLimitTrq(hl, ll, ls, rMax, ll)
  {
  }

  /**
   * In the upper band the activation is the depth into the band as a
   * fraction of its width, and the torque pushes down with the square of it.
   */
  lemma UpperBand(hl: real, ll: real, ls: real, rMax: real, q: real)
    requires ll <= hl && Clamp(q, ll, hl) > hl - ls
    ensures var out := JointLimitTrq(hl, ll, ls, rMax, q);
      ls > 0.0 &&
      out.activation == (Clamp(q, ll, hl) - hl + ls) / ls && 0.0 < out.activation <= 1.0 &&
      out.torque == -(out.activation * out.activation * rMax) &&
      (rMax >= 0.0 ==> -rMax <= out.torque <= 0.0)
  {
    var c := Clamp(q, ll, hl);
    var d := (c - hl + ls) / ls;
    assert JointLimitTrq(hl, ll, ls, rMax, q) == LimitResponse(-(d * d * rMax), Abs(d));
    UnitRatio(c - hl + ls, ls);
    BoundedSquare(d, rMax);
  }

  /** In the lower band, outside the upper one, the torque pushes up. */
  lemma LowerBand(hl: real, ll: real, ls: real, rMax: real, q: real)
    requires ll <= hl && Clamp(q, ll, hl) <= hl - ls && Clamp(q, ll, hl) < ll + ls
    ensures var out := JointLimitTrq(hl, ll, ls, rMax, q);
      ls > 0.0 &&
      out.activation == (ll + ls - Clamp(q, ll, hl)) / ls && 0.0 < out.activation <= 1.0 &&
      out.torque == out.activation * out.activation * rMax &&
      (rMax >= 0.0 ==> 0.0 <= out.torque <= rMax)
  {
    var c := Clamp(q, ll, hl);
    var d := (ll + ls - c) / ls;
    assert JointLimitTrq(hl, ll, ls, rMax, q) == LimitResponse(d * d * rMax, Abs(d));
    UnitRatio(ll + ls - c, ls);
    BoundedSquare(d, rMax);
  }

  /** Between the bands, and wherever the bands have no width, nothing acts. */
  lemma Quiet(hl: real, ll: real, ls: real, rMax: real, q: real)
    requires ll <= hl
    requires ll + ls <= Clamp(q, ll, hl) <= hl - ls || ls <= 0.0
    ensures JointLimitTrq(hl, ll, ls, rMax, q) == LimitResponse(0.0, 0.0)
  {
  }

  /** At or beyond the upper limit the joint is fully active and pushed down with the full torque. */
  lemma AtUpperLimit(hl: real, ll: real, ls: real, rMax: real, q: real)
    requires ll <= hl && ls > 0.0 && q >= hl
    ensures JointLimitTrq(hl, ll, ls, rMax, q) == LimitResponse(-rMax, 1.0)
  {
    assert Clamp(q, ll, hl) == hl;
    assert (hl - hl + ls) / ls == 1.0;
  }

  /**
   * At or beyond the lower limit the joint is fully active and pushed up,
   * provided the lower limit lies outside the upper band.
   */
  lemma AtLowerLimit(hl: real, ll: real, ls: real, rMax: real, q: real)
    requires ll <= hl - ls && ls > 0.0 && q <= ll
    ensures JointLimitTrq(hl, ll, ls, rMax, q) == LimitResponse(rMax, 1.0)
  {
    assert Clamp(q, ll, hl) == ll;
    assert (ll + ls - ll) / ls == 1.0;
  }

  /** Both band tests are strict: exactly at either inner edge nothing acts. */
  lemma BandEdgesAreQuiet(hl: real, ll: real, ls: real, rMax: real)
    requires hl - ls >= ll + ls && ls > 0.0
    ensures JointLimitTrq(hl, ll, ls, rMax, hl - ls) == LimitResponse(0.0, 0.0)
    ensures JointLimitTrq(hl, ll, ls, rMax, ll + ls) == LimitResponse(0.0, 0.0)
  {
  }

  /** Where the two bands overlap, the upper band is the one that acts. */
  lemma UpperBandWins(hl: real, ll: real, ls: real, rMax: real, q: real)
    requires ll <= hl && rMax > 0.0
    requires hl - ls < Clamp(q, ll, hl) < ll + ls
    ensures JointLimitTrq(hl, ll, ls, rMax, q).torque < 0.0
  {
    UpperBand(hl, ll, ls, rMax, q);
    var out := JointLimitTrq(hl, ll, ls, rMax, q);
    var a := out.activation;
    PositiveProduct(a, a);
    PositiveProduct(a * a, rMax);
    assert out.torque == -(a * a * rMax);
  }

  /** Deeper into the upper band the activation and the repulsion grow. */
  lemma DeeperIsStronger(hl: real, ll: real, ls: real, rMax: real, q1: real, q2: real)
    requires ll <= hl && rMax >= 0.0 && ls > 0.0
    requires hl - ls < q1 <= q2 && ll <= q1
    ensures var o1, o2 := JointLimitTrq(hl, ll, ls, rMax, q1), JointLimitTrq(hl, ll, ls, rMax, q2);
      o1.activation <= o2.activation && o2.torque <= o1.torque <= 0.0
  {
    var c1, c2 := Clamp(q1, ll, hl), Clamp(q2, ll, hl);
    var o1, o2 := JointLimitTrq(hl, ll, ls, rMax, q1), JointLimitTrq(hl, ll, ls, rMax, q2);
    assert 0.0 < c1 - hl + ls <= c2 - hl + ls by {
      ClampMonotone(q1, q2, ll, hl);
    }
    assert o1.activation == (c1 - hl + ls) / ls && o1.torque == -(o1.activation * o1.activation * rMax) by {
      UpperBand(hl, ll, ls, rMax, q1);
    }
    assert o2.activation == (c2 - hl + ls) / ls && o2.torque == -(o2.activation * o2.activation * rMax) by {
      UpperBand(hl, ll, ls, rMax, q2);
    }
    DepthOrdersResponses(o1, o2, c1 - hl + ls, c2 - hl + ls, ls, rMax);
  }

  /** The clamp preserves order, and a position above `ll` is clamped only from above. */
  lemma ClampMonotone(q1: real, q2: real, ll: real, hl: real)
    requires ll <= hl && q1 <= q2
    ensures Clamp(q1, ll, hl) <= Clamp(q2, ll, hl)
    ensures ll <= q1 ==> Clamp(q1, ll, hl) == q1 || Clamp(q1, ll, hl) == hl
  {
  }

  /** Two upper-band responses, at depths `x1 <= x2` into the band. */
  lemma DepthOrdersResponses(o1: LimitResponse, o2: LimitResponse, x1: real, x2: real, ls: real, rMax: real)
    requires 0.0 < x1 <= x2 && ls > 0.0 && rMax >= 0.0
    requires o1.activation == x1 / ls && o1.torque == -(o1.activation * o1.activation * rMax)
    requires o2.activation == x2 / ls && o2.torque == -(o2.activation * o2.activation * rMax)
    ensures o1.activation <= o2.activation && o2.torque <= o1.torque <= 0.0
  {
    var a1, a2 := x1 / ls, x2 / ls;
    DivMonotone(x1, x2, ls);
    assert 0.0 < a1;
    SquareMonotone(a1, a2);
    assert a1 * a1 * rMax <= a2 * a2 * rMax by {
      assert a2 * a2 * rMax - a1 * a1 * rMax == (a2 * a2 - a1 * a1) * rMax;
    }
    assert 0.0 <= a1 * a1 * rMax;
  }

  lemma SquareMonotone(x: real, y: real)
    requires 0.0 <= x <= y
    ensures x * x <= y * y
  {
    assert x * x <= x * y;
    assert x * y <= y * y;
  }

  lemma PositiveProduct(x: real, y: real)
    requires x > 0.0 && y > 0.0
    ensures x * y > 0.0
  {
  }

  lemma DivMonotone(x: real, y: real, d: real)
    requires x <= y && d > 0.0
    ensures x / d <= y / d
  {
    assert y / d - x / d == (y - x) / d;
  }

  /** With a non-negative maximum the torque never exceeds it in magnitude. */
  lemma TorqueBounded(hl: real, ll: real, ls: real, rMax: real, q: real)
    requires ll <= hl && rMax >= 0.0
    ensures -rMax <= JointLimitTrq(hl, ll, ls, rMax, q).torque <= rMax
  {
    var c := Clamp(q, ll, hl);
    if c > hl - ls {
      UpperBand(hl, ll, ls, rMax, q);
    } else if c < ll + ls {
      LowerBand(hl, ll, ls, rMax, q);
    }
  }

  // ---------------------------------------------------------------------
  // The nullspace projector
  // ---------------------------------------------------------------------

  /** With every activation 0 or 1, `N` is a projector: `N · N == N`. */
  lemma BinaryActivationsProject(a: seq<real>)
    requires forall i :: 0 <= i < |a| ==> a[i] == 0.0 || a[i] == 1.0
    ensures MatMul(NullspaceProjector(a), NullspaceProjector(a), |a|) == NullspaceProjector(a)
  {
    var n := |a|;
    var nm := NullspaceProjector(a);
    var p := MatMul(nm, nm, n);
    forall i | 0 <= i < n ensures p[i] == nm[i] {
      forall j | 0 <= j < n ensures p[i][j] == nm[i][j] {
        ProjectorSquareEntry(a, i, j);
      }
    }
  }

  /** One entry of `N · N` for binary activations. */
  lemma ProjectorSquareEntry(a: seq<real>, i: int, j: int)
    requires forall k :: 0 <= k < |a| ==> a[k] == 0.0 || a[k] == 1.0
    requires 0 <= i < |a| && 0 <= j < |a|
    ensures MatMul(NullspaceProjector(a), NullspaceProjector(a), |a|)[i][j] == NullspaceProjector(a)[i][j]
  {
    var n := |a|;
    var nm := NullspaceProjector(a);
    var col := Column(nm, n, j);
    assert MatMul(nm, nm, n)[i][j] == Dot(nm[i], col);
    DotSparse(nm[i], col, i);
    assert col[i] == nm[i][j];
    var d := 1.0 - a[i] * a[i];
    assert d == 0.0 || d == 1.0;
    assert d * d == d;
  }

  /** A fully active joint is removed from the nullspace; an inactive one is kept whole. */
  lemma NullspaceDiagonal(a: seq<real>, i: int)
    requires 0 <= i < |a|
    ensures a[i] == 1.0 ==> NullspaceProjector(a)[i][i] == 0.0
    ensures a[i] == 0.0 ==> NullspaceProjector(a)[i][i] == 1.0
    ensures 0.0 <= a[i] <= 1.0 ==> 0.0 <= NullspaceProjector(a)[i][i] <= 1.0
  {
    if 0.0 <= a[i] <= 1.0 {
      assert a[i] * a[i] <= a[i];
    }
  }

  // ---------------------------------------------------------------------
  // getActivationCount
  // ---------------------------------------------------------------------

  /** The threshold is strict: an activation of exactly 0.001 is not counted. */
  lemma CountExample()
    ensures |set i | 0 <= i < 4 && [0.0, 0.001, 0.5, 1.0][i] > 0.001| == 2
  {
    var a := [0.0, 0.001, 0.5, 1.0];
    assert (set i | 0 <= i < 4 && a[i] > 0.001) == {2, 3};
  }
}
