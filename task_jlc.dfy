/**
 * The per-joint part of joint-limit avoidance in src/task_jlc.cpp: a
 * repulsive torque that grows quadratically inside a band of width
 * `limit_range` below the upper limit and above the lower limit, the
 * activation of each joint, the stiffness each joint contributes to the
 * damping, and the nullspace projector I - JᵀJ with J = diag(activation).
 * Doubles are modelled as reals. The activation transfer `af_.func_Ndes` and
 * the damping matrix the source derives from a generalized eigenvalue
 * problem are parameters of the model.
 */
module JointLimits {

  // ---------------------------------------------------------------------
  // Square matrices over reals
  // ---------------------------------------------------------------------

  type Matrix = seq<seq<real>>

  predicate Square(m: Matrix, n: nat)
  {
    |m| == n && forall i :: 0 <= i < n ==> |m[i]| == n
  }

  function Dot(a: seq<real>, b: seq<real>): real
    requires |a| == |b|
  {
    if |a| == 0 then 0.0
    else
      var n := |a| - 1;
      Dot(a[..n], b[..n]) + a[n] * b[n]
  }

  /** A dot product with a vector that is zero except at `i` picks out entry `i`. */
  lemma {:induction false} DotSparse(u: seq<real>, v: seq<real>, i: int)
    requires |u| == |v|
    requires forall j :: 0 <= j < |u| && j != i ==> u[j] == 0.0
    ensures Dot(u, v) == if 0 <= i < |u| then u[i] * v[i] else 0.0
  {
    if |u| > 0 {
      var n := |u| - 1;
      DotSparse(u[..n], v[..n], i);
    }
  }

  function MatVec(m: Matrix, v: seq<real>): (r: seq<real>)
    requires Square(m, |v|)
    ensures |r| == |v|
  {
    seq(|v|, i requires 0 <= i < |v| => Dot(m[i], v))
  }

  function Column(m: Matrix, n: nat, j: int): (c: seq<real>)
    requires Square(m, n) && 0 <= j < n
    ensures |c| == n
  {
    seq(n, i requires 0 <= i < n => m[i][j])
  }

  function MatMul(a: Matrix, b: Matrix, n: nat): (c: Matrix)
    requires Square(a, n) && Square(b, n)
    ensures Square(c, n)
  {
    seq(n, i requires 0 <= i < n => seq(n, j requires 0 <= j < n => Dot(a[i], Column(b, n, j))))
  }

  function Transpose(m: Matrix, n: nat): (t: Matrix)
    requires Square(m, n)
    ensures Square(t, n)
  {
    seq(n, i requires 0 <= i < n => Column(m, n, i))
  }

  function MatSub(a: Matrix, b: Matrix, n: nat): (c: Matrix)
    requires Square(a, n) && Square(b, n)
    ensures Square(c, n)
  {
    seq(n, i requires 0 <= i < n => seq(n, j requires 0 <= j < n => a[i][j] - b[i][j]))
  }

  /** `asDiagonal()`. */
  function Diagonal(a: seq<real>): (d: Matrix)
    ensures Square(d, |a|)
  {
    seq(|a|, i requires 0 <= i < |a| => seq(|a|, j requires 0 <= j < |a| => if i == j then a[i] else 0.0))
  }

  function Identity(n: nat): (m: Matrix)
    ensures Square(m, n)
  {
    Diagonal(seq(n, _ => 1.0))
  }

  /**
   * `N = I - JᵀJ` with `J = diag(a)`: a diagonal matrix with 1 - a[i]² on
   * the diagonal.
   */
  function NullspaceProjector(a: seq<real>): (nm: Matrix)
    ensures Square(nm, |a|)
    ensures forall i, j :: 0 <= i < |a| && 0 <= j < |a| ==>
      nm[i][j] == if i == j then 1.0 - a[i] * a[i] else 0.0
  {
    var n := |a|;
    var d := Diagonal(a);
    var t := Transpose(d, n);
    var p := MatMul(t, d, n);
    forall i, j | 0 <= i < n && 0 <= j < n
      ensures p[i][j] == if i == j then a[i] * a[i] else 0.0
    {
      DotSparse(t[i], Column(d, n, j), i);
    }
    MatSub(Identity(n), p, n)
  }

  // ---------------------------------------------------------------------
  // jointLimitTrq
  // ---------------------------------------------------------------------

  function Abs(x: real): real
  {
    if x < 0.0 then -x else x
  }

  /** The clamp jointLimitTrq applies first: above `hl` becomes `hl`, else below `ll` becomes `ll`. */
  function Clamp(q: real, ll: real, hl: real): (c: real)
    requires ll <= hl
    ensures ll <= c <= hl
    ensures ll <= q <= hl ==> c == q
  {
    if q > hl then hl else if q < ll then ll else q
  }

  lemma UnitRatio(x: real, ls: real)
    requires 0.0 < x <= ls
    ensures 0.0 < x / ls <= 1.0
  {
  }

  lemma BoundedSquare(d: real, rMax: real)
    requires 0.0 < d <= 1.0
    ensures 0.0 < d * d <= 1.0
    ensures rMax >= 0.0 ==> d * d * rMax <= rMax
  {
    assert d * d <= d;
    if rMax >= 0.0 {
      assert (d * d) * rMax <= 1.0 * rMax;
    }
  }

  /** The torque jointLimitTrq returns and the activation it writes to its out-parameter. */
  datatype LimitResponse = LimitResponse(torque: real, activation: real)

  /**
   * jointLimitTrq: in the band of width `ls` below the upper limit `hl` the
   * torque pushes down with magnitude activation² · `rMax`; in the band above
   * the lower limit `ll` it pushes up; the upper band is tested first; both
   * tests are strict.
   */
  function JointLimitTrq(hl: real, ll: real, ls: real, rMax: real, q: real): (out: LimitResponse)
    requires ll <= hl
    ensures 0.0 <= out.activation <= 1.0
    ensures out.activation != 0.0 ==> ls > 0.0
    ensures out.activation == 0.0 ==> out.torque == 0.0
  {
    var c := Clamp(q, ll, hl);
    if c > hl - ls then
      var d := (c - hl + ls) / ls;
      UnitRatio(c - hl + ls, ls);
      BoundedSquare(d, rMax);
      LimitResponse(-(d * d * rMax), Abs(d))
    else if c < ll + ls then
      var d := (ll + ls - c) / ls;
      UnitRatio(ll + ls - c, ls);
      BoundedSquare(d, rMax);
      LimitResponse(d * d * rMax, Abs(d))
    else
      LimitResponse(0.0, 0.0)
  }

  /** `k_` of an included joint: the limit stiffness when the torque is not negligible. */
  function Stiffness(torque: real, maxTrq: real, range: real): (k: real)
    requires Abs(torque) > 0.000001 ==> range != 0.0
    ensures Abs(torque) > 0.000001 ==> k * range == maxTrq
    ensures Abs(torque) <= 0.000001 ==> k == 0.001
  {
    if Abs(torque) > 0.000001 then maxTrq / range else 0.001
  }

  /** `torque -= D · dq`, entry by entry. */
  method SubtractDamping(torque: array<real>, dt: seq<real>)
    requires torque.Length == |dt|
    modifies torque
    ensures forall i :: 0 <= i < |dt| ==> torque[i] == old(torque[i]) - dt[i]
  {
    for i := 0 to |dt|
      invariant forall j :: 0 <= j < |dt| ==> torque[j] == if j < i then old(torque[j]) - dt[j] else old(torque[j])
    {
      torque[i] := torque[i] - dt[i];
    }
  }

  // ---------------------------------------------------------------------
  // Task_JLC
  // ---------------------------------------------------------------------

  class TaskJlc {
    /** `q_length_`, the number of joints. */
    const n: nat
    const lowerLimit: seq<real>
    const upperLimit: seq<real>
    const limitRange: seq<real>
    const maxTrq: seq<real>
    const excluded: set<int>
    /** `af_.func_Ndes`, defined outside this model. */
    const ndes: real -> real
    /** `activation_JLC_`. */
    const activation: array<real>
    /** `k_`. */
    const k: array<real>

    ghost predicate Valid()
      reads this
    {
      |lowerLimit| == n && |upperLimit| == n && |limitRange| == n && |maxTrq| == n &&
      activation.Length == n && k.Length == n && activation != k &&
      forall i :: 0 <= i < n ==> lowerLimit[i] <= upperLimit[i]
    }

    /** The vectors the source leaves uninitialised start at 0 here. */
    constructor (lowerLimit: seq<real>, upperLimit: seq<real>, limitRange: seq<real>, maxTrq: seq<real>,
                 excluded: set<int>, ndes: real -> real)
      requires |upperLimit| == |lowerLimit| && |limitRange| == |lowerLimit| && |maxTrq| == |lowerLimit|
      requires forall i :: 0 <= i < |lowerLimit| ==> lowerLimit[i] <= upperLimit[i]
      ensures Valid() && fresh(activation) && fresh(k)
      ensures n == |lowerLimit| && this.lowerLimit == lowerLimit && this.upperLimit == upperLimit
      ensures this.limitRange == limitRange && this.maxTrq == maxTrq
      ensures this.excluded == excluded && this.ndes == ndes
    {
      n := |lowerLimit|;
      this.lowerLimit := lowerLimit;
      this.upperLimit := upperLimit;
      this.limitRange := limitRange;
      this.maxTrq := maxTrq;
      this.excluded := excluded;
      this.ndes := ndes;
      activation := new real[|lowerLimit|](_ => 0.0);
      k := new real[|lowerLimit|](_ => 0.0);
    }

    /** The response of joint `i` at position `q`. */
    function Response(i: int, q: real): LimitResponse
      reads this
      requires Valid() && 0 <= i < n
    {
      JointLimitTrq(upperLimit[i], lowerLimit[i], limitRange[i], maxTrq[i], q)
    }

    /**
     * Joint `i` after the per-joint loop of compute: excluded joints get
     * torque 0, activation 0 and stiffness 0.001; the others get the limit
     * response, the activation through `af_.func_Ndes` and the stiffness rule.
     */
    ghost predicate JointSet(i: int, qi: real, t: real, a: real, ki: real)
      reads this
      requires Valid() && 0 <= i < n
    {
      if i in excluded then
        t == 0.0 && a == 0.0 && ki == 0.001
      else
        var r := Response(i, qi);
        t == r.torque &&
        a == 1.0 - ndes(1.0 - r.activation) &&
        ki == Stiffness(r.torque, maxTrq[i], limitRange[i])
    }

    /**
     * Every stiffness the loop writes is positive for an excluded joint, and
     * for an included one whose maximum torque and band width are positive,
     * so `diag(k_)` is positive definite whenever the configuration is.
     */
    lemma StiffnessPositive(i: int, qi: real, t: real, a: real, ki: real)
      requires Valid() && 0 <= i < n && JointSet(i, qi, t, a, ki)
      requires i in excluded || (maxTrq[i] > 0.0 && limitRange[i] > 0.0)
      ensures ki > 0.0
    {
      if i !in excluded && Abs(t) > 0.000001 {
        assert ki * limitRange[i] == maxTrq[i];
      }
    }

    /** The per-joint loop of compute. */
    method LimitTorques(q: seq<real>, torque: array<real>)
      requires Valid() && |q| == n && torque.Length == n
      requires torque != activation && torque != k
      modifies torque, activation, k
      ensures forall i :: 0 <= i < n ==> JointSet(i, q[i], torque[i], activation[i], k[i])
      ensures forall i :: 0 <= i < n && (i in excluded || (maxTrq[i] > 0.0 && limitRange[i] > 0.0)) ==> k[i] > 0.0
    {
      for i := 0 to n
        invariant forall j :: 0 <= j < i ==> JointSet(j, q[j], torque[j], activation[j], k[j])
        invariant forall j :: 0 <= j < i && (j in excluded || (maxTrq[j] > 0.0 && limitRange[j] > 0.0)) ==> k[j] > 0.0
      {
        if i in excluded {
          torque[i] := 0.0;
          activation[i] := 0.0;
          k[i] := 0.001;
        } else {
          var r := JointLimitTrq(upperLimit[i], lowerLimit[i], limitRange[i], maxTrq[i], q[i]);
          torque[i] := r.torque;
          activation[i] := 1.0 - ndes(1.0 - r.activation);
          if Abs(torque[i]) > 0.000001 {
            k[i] := maxTrq[i] / limitRange[i];
          } else {
            k[i] := 0.001;
          }
        }
        assert JointSet(i, q[i], torque[i], activation[i], k[i]);
        if i in excluded || (maxTrq[i] > 0.0 && limitRange[i] > 0.0) {
          StiffnessPositive(i, q[i], torque[i], activation[i], k[i]);
        }
      }
    }

    /**
     * compute: the per-joint loop writes the limit torque, the activation and
     * the stiffness of every joint; then the damping torque D·dq is
     * subtracted from every entry, excluded joints included, and the
     * nullspace projector of the activations is returned. `damping` stands
     * for the matrix the source builds from the stiffnesses and the inertia
     * through a generalized eigendecomposition.
     */
    method Compute(q: seq<real>, dq: seq<real>, inertia: Matrix, damping: (seq<real>, Matrix) -> Matrix,
                   torque: array<real>) returns (nullspace: Matrix)
      requires Valid() && |q| == n && |dq| == n && torque.Length == n
      requires torque != activation && torque != k
      requires forall kk :: |kk| == n ==> Square(damping(kk, inertia), n)
      modifies torque, activation, k
      ensures var dt := MatVec(damping(k[..], inertia), dq);
        forall i :: 0 <= i < n ==> JointSet(i, q[i], torque[i] + dt[i], activation[i], k[i])
      ensures Square(nullspace, n)
      ensures forall i, j :: 0 <= i < n && 0 <= j < n ==>
        nullspace[i][j] == if i == j then 1.0 - activation[i] * activation[i] else 0.0
    {
      LimitTorques(q, torque);
      var dt := MatVec(damping(k[..], inertia), dq);
      SubtractDamping(torque, dt);
      nullspace := Nullspace();
    }

    /** The nullspace projector `N = I - JᵀJ` of the current activations, `J = diag(activation)`. */
    method Nullspace() returns (nm: Matrix)
      requires Valid()
      ensures Square(nm, n)
      ensures forall i, j :: 0 <= i < n && 0 <= j < n ==>
        nm[i][j] == if i == j then 1.0 - activation[i] * activation[i] else 0.0
    {
      nm := NullspaceProjector(activation[..]);
    }

    /** getActivationCount: the joints whose activation exceeds 0.001. */
    method ActivationCount() returns (count: int)
      requires Valid()
      ensures count == |set i | 0 <= i < n && activation[i] > 0.001|
      ensures 0 <= count <= n
    {
      count := 0;
      for i := 0 to n
        invariant count == |set j | 0 <= j < i && activation[j] > 0.001|
        invariant count <= i
      {
        ghost var below := set j | 0 <= j < i && activation[j] > 0.001;
        if activation[i] > 0.001 {
          assert (set j | 0 <= j < i + 1 && activation[j] > 0.001) == below + {i};
          count := count + 1;
        } else {
          assert (set j | 0 <= j < i + 1 && activation[j] > 0.001) == below;
        }
      }
    }
  }
}
