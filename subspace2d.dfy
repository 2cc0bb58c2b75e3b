/** The two-dimensional subspace trust-region step of multifit_nlinear
    (subspace2D.c): the reduced 2x2 model, the quartic in the Lagrange
    multiplier whose real roots put the step on the trust-region boundary,
    the scan for the cheapest such root, and the three-way choice of step.
    Doubles are modelled as reals; the QR factorisation of [dx_sd, dx_gn],
    the linear least-squares solver, the polynomial root finder and the
    BLAS norms are outside routines whose results enter as parameters. */
module Subspace2D {
  import opened GslErrno

  // ---------------------------------------------------------------------
  // Vectors of length p

  /** Sum of squares of the entries: the squared Euclidean norm that
      gsl_blas_dnrm2 takes the square root of. */
  function SumSq(v: seq<real>): real
  {
    if |v| == 0 then 0.0 else v[0] * v[0] + SumSq(v[1..])
  }

  /** gsl_vector_scale: every entry multiplied by c. */
  function Scale(v: seq<real>, c: real): (r: seq<real>)
    ensures |r| == |v|
  {
    if |v| == 0 then [] else [c * v[0]] + Scale(v[1..], c)
  }

  /** One entry's share of ScaleSumSq. */
  lemma ScaleStep(c: real, x: real, s: real, t: real)
    requires t == c * c * s
    ensures (c * x) * (c * x) + t == c * c * (x * x + s)
  {
  }

  /** The head and tail of a scaled vector. */
  lemma ScaleCons(v: seq<real>, c: real)
    requires |v| > 0
    ensures Scale(v, c)[0] == c * v[0] && Scale(v, c)[1..] == Scale(v[1..], c)
  {
  }

  /** Scaling a vector by c scales its squared norm by c^2. */
  lemma {:induction false} ScaleSumSq(v: seq<real>, c: real)
    ensures SumSq(Scale(v, c)) == c * c * SumSq(v)
  {
    if |v| > 0 {
      ScaleSumSq(v[1..], c);
      ScaleCons(v, c);
      ScaleStep(c, v[0], SumSq(v[1..]), SumSq(Scale(v[1..], c)));
    }
  }

  /** The steepest-descent step scaled out to radius delta has squared norm
      delta^2, provided normSd is the (nonzero) norm of the step. */
  lemma ScaledToRadius(v: seq<real>, normSd: real, delta: real)
    requires normSd != 0.0 && normSd * normSd == SumSq(v)
    ensures SumSq(Scale(v, delta / normSd)) == delta * delta
  {
    ScaleSumSq(v, delta / normSd);
    var c := delta / normSd;
    assert c * normSd == delta;
    calc {
      c * c * SumSq(v);
      c * c * (normSd * normSd);
      (c * normSd) * (c * normSd);
    }
  }

  // ---------------------------------------------------------------------
  // The reduced 2x2 problem

  /** A 2-vector: subg, the solution x of the reduced problem. */
  datatype Vec2 = Vec2(x0: real, x1: real)

  /** A symmetric 2x2 matrix by its lower triangle, which is all that
      gsl_blas_dsyrk(CblasLower, ...) writes of subB and all that the code
      reads back. */
  datatype Sym2 = Sym2(b00: real, b10: real, b11: real)

  function Dot(u: Vec2, v: Vec2): real
  {
    u.x0 * v.x0 + u.x1 * v.x1
  }

  function NormSq(u: Vec2): real
  {
    Dot(u, u)
  }

  function Neg(u: Vec2): Vec2
  {
    Vec2(-u.x0, -u.x1)
  }

  /** The symmetric matrix times a vector (gsl_blas_dsymv with the lower
      triangle). */
  function Mul(b: Sym2, x: Vec2): Vec2
  {
    Vec2(b.b00 * x.x0 + b.b10 * x.x1, b.b10 * x.x0 + b.b11 * x.x1)
  }

  function Trace(b: Sym2): real
  {
    b.b00 + b.b11
  }

  function Det(b: Sym2): real
  {
    b.b00 * b.b11 - b.b10 * b.b10
  }

  /** adj(B) x, with adj(B) = [[b11, -b10], [-b10, b00]]. */
  function AdjMul(b: Sym2, x: Vec2): Vec2
  {
    Vec2(b.b11 * x.x0 - b.b10 * x.x1, b.b00 * x.x1 - b.b10 * x.x0)
  }

  /** B + lambda I, as subspace2D_solution builds it. */
  function Shift(b: Sym2, lam: real): Sym2
  {
    Sym2(b.b00 + lam, b.b10, b.b11 + lam)
  }

  /** The adjugate inverts B up to its determinant: B adj(B) x = det(B) x. */
  lemma AdjugateIdentity(b: Sym2, x: Vec2)
    ensures Mul(b, AdjMul(b, x)) == Vec2(Det(b) * x.x0, Det(b) * x.x1)
  {
  }

  /** The solution of C y = g for a nonsingular symmetric C: the result of
      the pivoted QR solve gsl_linalg_QRPT_solve, which over the reals is
      the unique solution, here by the adjugate. */
  function SolveSym(c: Sym2, g: Vec2): (y: Vec2)
    requires Det(c) != 0.0
    ensures Mul(c, y) == g
  {
    AdjugateIdentity(c, g);
    var d := Det(c);
    var a := AdjMul(c, g);
    assert Mul(c, Vec2(a.x0 / d, a.x1 / d)) == Vec2(Mul(c, a).x0 / d, Mul(c, a).x1 / d);
    Vec2(a.x0 / d, a.x1 / d)
  }

  /** A nonsingular system has no other solution, so any exact solver
      returns what SolveSym returns. */
  lemma SolveSymUnique(c: Sym2, g: Vec2, y: Vec2)
    requires Det(c) != 0.0 && Mul(c, y) == g
    ensures y == SolveSym(c, g)
  {
    var z := SolveSym(c, g);
    var e := Vec2(y.x0 - z.x0, y.x1 - z.x1);
    assert Mul(c, e) == Vec2(0.0, 0.0);
    AdjugateIdentity(c, Mul(c, e));
    assert AdjMul(c, Mul(c, e)) == Vec2(Det(c) * e.x0, Det(c) * e.x1);
  }

  /** subspace2D_solution: x with (B + lambda I) x = -g. */
  function Solution(b: Sym2, g: Vec2, lam: real): (x: Vec2)
    requires Det(Shift(b, lam)) != 0.0
    ensures Mul(Shift(b, lam), x) == Neg(g)
  {
    var y := SolveSym(Shift(b, lam), g);
    Neg(y)
  }

  /** subspace2D_objective, computed as the code does (half of B x, then a
      dot product): the reduced quadratic model f(x) = g.x + x.(B x)/2. */
  function Objective(b: Sym2, g: Vec2, x: Vec2): (r: real)
    ensures r == Dot(g, x) + Dot(x, Mul(b, x)) / 2.0
  {
    var y := Mul(b, x);
    Dot(g, x) + Dot(x, Vec2(0.5 * y.x0, 0.5 * y.x1))
  }

  /** At the solution for a multiplier lambda the model's value is
      -(x.(B x))/2 - lambda |x|^2: the gradient term is eliminated by the
      stationarity condition (B + lambda I) x = -g. */
  lemma ObjectiveAtSolution(b: Sym2, g: Vec2, lam: real)
    requires Det(Shift(b, lam)) != 0.0
    ensures var x := Solution(b, g, lam);
            Objective(b, g, x) == -0.5 * Dot(x, Mul(b, x)) - lam * NormSq(x)
  {
    var x := Solution(b, g, lam);
    assert g == Neg(Mul(Shift(b, lam), x));
    assert Mul(Shift(b, lam), x) == Vec2(Mul(b, x).x0 + lam * x.x0, Mul(b, x).x1 + lam * x.x1);
  }

  // ---------------------------------------------------------------------
  // Reduced scalars of subspace2D_preloop

  /** term0 as the code expands it. */
  function Term0(b: Sym2, g: Vec2): real
  {
    (b.b10 * b.b10 + b.b11 * b.b11) * g.x0 * g.x0
      - 2.0 * b.b10 * (b.b00 + b.b11) * g.x0 * g.x1
      + (b.b00 * b.b00 + b.b10 * b.b10) * g.x1 * g.x1
  }

  /** term1 as the code expands it. */
  function Term1(b: Sym2, g: Vec2): real
  {
    b.b11 * g.x0 * g.x0 + g.x1 * (b.b00 * g.x1 - 2.0 * b.b10 * g.x0)
  }

  /** The expanded scalars are the quantities the state's field comments
      name (subspace2D.c, lines 127-131): term0 = |adj(B) g|^2 and
      term1 = g^T adj(B) g. */
  lemma ReducedScalars(b: Sym2, g: Vec2)
    ensures Term0(b, g) == NormSq(AdjMul(b, g))
    ensures Term1(b, g) == Dot(g, AdjMul(b, g))
  {
  }

  /** det(B + lambda I) is the quadratic lambda^2 + tr(B) lambda + det(B). */
  lemma ShiftedDet(b: Sym2, lam: real)
    ensures Det(Shift(b, lam)) == lam * lam + Trace(b) * lam + Det(b)
  {
  }

  /** |adj(B + lambda I) g|^2 = term0 + 2 lambda term1 + lambda^2 |g|^2. */
  lemma ShiftedAdjNorm(b: Sym2, g: Vec2, lam: real)
    ensures NormSq(AdjMul(Shift(b, lam), g))
            == Term0(b, g) + 2.0 * lam * Term1(b, g) + lam * lam * NormSq(g)
  {
    ReducedScalars(b, g);
    var a := AdjMul(b, g);
    assert AdjMul(Shift(b, lam), g) == Vec2(a.x0 + lam * g.x0, a.x1 + lam * g.x1);
  }

  // ---------------------------------------------------------------------
  // The quartic in the Lagrange multiplier

  /** Coefficients a[0..4] of the quartic, lowest degree first, the order
      gsl_poly_complex_solve takes them in. */
  datatype Quartic = Quartic(a0: real, a1: real, a2: real, a3: real, a4: real)

  /** The coefficients subspace2D_step hands to the root finder, from the
      stored scalars and the trust radius (u = normg / delta). */
  function QuarticCoefficients(trB: real, detB: real, normg: real, term0: real, term1: real, delta: real): (q: Quartic)
    requires delta > 0.0
    ensures q.a4 == 1.0
  {
    PositiveSquare(delta);
    var u := normg / delta;
    Quartic(detB * detB - term0 / (delta * delta),
            2.0 * detB * trB - 2.0 * term1 / (delta * delta),
            trB * trB + 2.0 * detB - u * u,
            2.0 * trB,
            1.0)
  }

  /** With normg^2 = g^T g, the code's u^2 = (normg / delta)^2 is
      normg^2 / delta^2, so every coefficient is a quotient by delta^2. */
  lemma QuarticOverSquare(trB: real, detB: real, normg: real, term0: real, term1: real, delta: real)
    requires delta > 0.0
    ensures var q := QuarticCoefficients(trB, detB, normg, term0, term1, delta);
            && q.a2 == trB * trB + 2.0 * detB - normg * normg / (delta * delta)
            && q.a1 == 2.0 * detB * trB - 2.0 * term1 / (delta * delta)
            && q.a0 == detB * detB - term0 / (delta * delta)
  {
    DivBySquare(normg * normg, delta);
    var iv := 1.0 / delta;
    assert normg / delta == normg * iv;
    assert (normg * iv) * (normg * iv) == normg * normg * iv * iv;
  }

  /** The coefficients the code forms from the state's scalars are those of
      the quartic written out in the header comment of subspace2D.c
      (lines 97-101), in terms of B and g themselves: tr(B), det(B), g^T g,
      g^T adj(B)^T adj(B) g and g^T adj(B) g. */
  lemma QuarticAsDerived(b: Sym2, g: Vec2, normg: real, delta: real)
    requires delta > 0.0 && normg * normg == NormSq(g)
    ensures var q := QuarticCoefficients(Trace(b), Det(b), normg, Term0(b, g), Term1(b, g), delta);
            && q.a4 == 1.0
            && q.a3 == 2.0 * Trace(b)
            && q.a2 == Trace(b) * Trace(b) + 2.0 * Det(b) - NormSq(g) / (delta * delta)
            && q.a1 == 2.0 * Det(b) * Trace(b) - 2.0 * Dot(g, AdjMul(b, g)) / (delta * delta)
            && q.a0 == Det(b) * Det(b) - NormSq(AdjMul(b, g)) / (delta * delta)
  {
    ReducedScalars(b, g);
    QuarticOverSquare(Trace(b), Det(b), normg, Term0(b, g), Term1(b, g), delta);
  }

  function EvalQuartic(q: Quartic, lam: real): real
  {
    q.a0 + lam * (q.a1 + lam * (q.a2 + lam * (q.a3 + lam * q.a4)))
  }

  /** A nonzero real has a positive square. */
  lemma PositiveSquare(x: real)
    requires x != 0.0
    ensures x * x > 0.0
  {
    if x < 0.0 {
      assert x * x == (-x) * (-x);
    }
  }

  /** Dividing by delta^2 is multiplying twice by 1/delta. */
  lemma DivBySquare(x: real, delta: real)
    requires delta > 0.0
    ensures delta * delta > 0.0
    ensures x / (delta * delta) == x * (1.0 / delta) * (1.0 / delta)
  {
    PositiveSquare(delta);
    var iv := 1.0 / delta;
    assert iv * delta == 1.0;
    assert x * iv * iv * (delta * delta) == x * (iv * delta) * (iv * delta);
  }

  /** (l^2 + t l + e)^2 in Horner form. */
  lemma SquareOfQuadratic(l: real, t: real, e: real)
    ensures (l * l + t * l + e) * (l * l + t * l + e)
            == e * e + l * (2.0 * e * t + l * (t * t + 2.0 * e + l * (2.0 * t + l)))
  {
  }

  /** The quartic with these coefficients is det^2 minus the norm part. */
  lemma SplitQuartic(l: real, t: real, e: real, t0: real, t1: real, gg: real, iv: real)
    ensures EvalQuartic(Quartic(e * e - t0 * iv * iv, 2.0 * e * t - 2.0 * (t1 * iv * iv),
                                t * t + 2.0 * e - gg * iv * iv, 2.0 * t, 1.0), l)
            == (e * e + l * (2.0 * e * t + l * (t * t + 2.0 * e + l * (2.0 * t + l))))
              - (t0 + 2.0 * l * t1 + l * l * gg) * iv * iv
  {
  }

  /** The coefficient formulas, as plain algebra: the quartic at l is
      (l^2 + t l + e)^2 - (t0 + 2 l t1 + l^2 gg) / delta^2. */
  lemma SecularAlgebra(l: real, t: real, e: real, t0: real, t1: real, gg: real, normg: real, delta: real)
    requires delta > 0.0 && normg * normg == gg
    ensures EvalQuartic(QuarticCoefficients(t, e, normg, t0, t1, delta), l)
            == (l * l + t * l + e) * (l * l + t * l + e) - (t0 + 2.0 * l * t1 + l * l * gg) / (delta * delta)
  {
    var iv := 1.0 / delta;
    var s := t0 + 2.0 * l * t1 + l * l * gg;
    DivBySquare(t0, delta);
    DivBySquare(t1, delta);
    DivBySquare(s, delta);
    assert (normg / delta) * (normg / delta) == gg * iv * iv;
    assert QuarticCoefficients(t, e, normg, t0, t1, delta)
        == Quartic(e * e - t0 * iv * iv, 2.0 * e * t - 2.0 * (t1 * iv * iv), t * t + 2.0 * e - gg * iv * iv, 2.0 * t, 1.0);
    SquareOfQuadratic(l, t, e);
    SplitQuartic(l, t, e, t0, t1, gg, iv);
  }

  /** The quartic is det(B + lambda I)^2 - |adj(B + lambda I) g|^2 / delta^2. */
  lemma QuarticIsSecular(b: Sym2, g: Vec2, normg: real, delta: real, lam: real)
    requires delta > 0.0 && normg * normg == NormSq(g)
    ensures var q := QuarticCoefficients(Trace(b), Det(b), normg, Term0(b, g), Term1(b, g), delta);
            var d := Det(Shift(b, lam));
            EvalQuartic(q, lam) == d * d - NormSq(AdjMul(Shift(b, lam), g)) / (delta * delta)
  {
    ShiftedDet(b, lam);
    ShiftedAdjNorm(b, g, lam);
    SecularAlgebra(lam, Trace(b), Det(b), Term0(b, g), Term1(b, g), NormSq(g), normg, delta);
  }

  /** (y/d)^2 d^2 = y^2. */
  lemma QuotientSquare(y: real, d: real)
    requires d != 0.0
    ensures (-(y / d)) * (-(y / d)) * (d * d) == y * y
  {
    assert (y / d) * d == y;
  }

  /** The solved step's squared norm times det^2 is |adj(C) g|^2. */
  lemma SolutionNormSq(b: Sym2, g: Vec2, lam: real)
    requires Det(Shift(b, lam)) != 0.0
    ensures var d := Det(Shift(b, lam));
            NormSq(Solution(b, g, lam)) * (d * d) == NormSq(AdjMul(Shift(b, lam), g))
  {
    var c := Shift(b, lam);
    var d := Det(c);
    var a := AdjMul(c, g);
    assert Solution(b, g, lam) == Neg(Vec2(a.x0 / d, a.x1 / d));
    QuotientSquare(a.x0, d);
    QuotientSquare(a.x1, d);
  }

  /** Multiplying the secular value out by delta^2. */
  lemma ClearDivision(p: real, d: real, n: real, delta: real)
    requires delta > 0.0 && p == d * d - n / (delta * delta)
    ensures (delta * delta) * p == (delta * delta) * (d * d) - n
  {
  }

  /** With |x|^2 d^2 = a, the secular value d^2 - a/delta^2 vanishes
      exactly when |x|^2 = delta^2 (d and delta nonzero). */
  lemma BoundaryAlgebra(p: real, x: real, a: real, d: real, dl: real)
    requires dl > 0.0 && d != 0.0 && p == d * d - a / (dl * dl) && x * (d * d) == a
    ensures p == 0.0 <==> x == dl * dl
  {
    ClearDivision(p, d, a, dl);
    assert (dl * dl) * p == (d * d) * (dl * dl - x);
    if x == dl * dl {
      assert dl * (dl * p) == 0.0;
      assert dl * p == 0.0;
    }
    if p == 0.0 {
      assert d * (d * (dl * dl - x)) == 0.0;
      assert d * (dl * dl - x) == 0.0;
    }
  }

  /** The derivation in the header comment of subspace2D.c (lines 93-103):
      a real lambda at which B + lambda I is
      nonsingular is a root of the quartic exactly when the step it
      determines lies on the trust-region boundary |x| = delta. */
  lemma QuarticRootIffOnBoundary(b: Sym2, g: Vec2, normg: real, delta: real, lam: real)
    requires delta > 0.0 && normg * normg == NormSq(g)
    requires Det(Shift(b, lam)) != 0.0
    ensures var q := QuarticCoefficients(Trace(b), Det(b), normg, Term0(b, g), Term1(b, g), delta);
            EvalQuartic(q, lam) == 0.0 <==> NormSq(Solution(b, g, lam)) == delta * delta
  {
    var q := QuarticCoefficients(Trace(b), Det(b), normg, Term0(b, g), Term1(b, g), delta);
    QuarticIsSecular(b, g, normg, delta, lam);
    SolutionNormSq(b, g, lam);
    BoundaryAlgebra(EvalQuartic(q, lam), NormSq(Solution(b, g, lam)),
                    NormSq(AdjMul(Shift(b, lam), g)), Det(Shift(b, lam)), delta);
  }

  // ---------------------------------------------------------------------
  // Vector helpers used by the step

  /** Entry i of a scaled vector. */
  lemma {:induction false} ScaleAt(v: seq<real>, c: real, i: nat)
    requires i < |v|
    ensures Scale(v, c)[i] == c * v[i]
  {
    ScaleCons(v, c);
    if i > 0 {
      ScaleAt(v[1..], c, i - 1);
    }
  }

  /** n zeros. */
  function Zeros(n: nat): (r: seq<real>)
    ensures |r| == n && forall i :: 0 <= i < n ==> r[i] == 0.0
  {
    if n == 0 then [] else [0.0] + Zeros(n - 1)
  }

  lemma {:induction false} ZerosSumSq(n: nat)
    ensures SumSq(Zeros(n)) == 0.0
  {
    if n > 0 {
      ZerosSumSq(n - 1);
      assert Zeros(n)[1..] == Zeros(n - 1);
    }
  }

  /** The p-vector (x0, x1, 0, ..., 0) that subspace2D_step writes into dx
      before applying Q. */
  function Pad(x: Vec2, p: nat): (r: seq<real>)
    requires p >= 2
    ensures |r| == p && r[0] == x.x0 && r[1] == x.x1
    ensures forall i :: 2 <= i < p ==> r[i] == 0.0
  {
    [x.x0, x.x1] + Zeros(p - 2)
  }

  /** The squared norm of a 2-vector as a sequence. */
  lemma PairSumSq(a: real, b: real)
    ensures SumSq([a, b]) == a * a + b * b
  {
    assert [a, b][1..] == [b];
    assert [b][1..] == [];
    assert SumSq([b]) == b * b + SumSq([]);
  }

  /** Padding with zeros keeps the squared norm. */
  lemma PadSumSq(x: Vec2, p: nat)
    requires p >= 2
    ensures SumSq(Pad(x, p)) == NormSq(x)
  {
    var r := Pad(x, p);
    ZerosSumSq(p - 2);
    assert r[1..][1..] == Zeros(p - 2);
  }

  // ---------------------------------------------------------------------
  // The scan over the roots

  /** Complex number z = re + i im, as gsl_poly_complex_solve packs it. */
  datatype Complex = Complex(re: real, im: real)

  /** GSL_DBL_EPSILON, 2^-52. */
  const DBL_EPSILON: real := 0.0000000000000002220446049250313080847263336181640625

  function Abs(x: real): (r: real)
    ensures r >= 0.0 && (r == x || r == -x)
  {
    if x < 0.0 then -x else x
  }

  /** The root counts as real when its imaginary part is below epsilon in
      magnitude. */
  predicate IsReal(z: Complex)
  {
    Abs(z.im) < DBL_EPSILON
  }

  /** Every root the scan treats as real gives a nonsingular B + lambda I,
      so the solution for it exists. */
  predicate Admissible(b: Sym2, roots: seq<Complex>)
  {
    forall i :: 0 <= i < |roots| && IsReal(roots[i]) ==> Det(Shift(b, roots[i].re)) != 0.0
  }

  /** The model value at the solution for multiplier lambda. */
  function Cost(b: Sym2, g: Vec2, lam: real): real
    requires Det(Shift(b, lam)) != 0.0
  {
    Objective(b, g, Solution(b, g, lam))
  }

  /** Root m is the one the scan picks: a real root of least cost, and the
      first such, since a later root replaces the candidate only when it is
      strictly cheaper. */
  predicate IsFirstMinimum(b: Sym2, g: Vec2, roots: seq<Complex>, m: int)
    requires Admissible(b, roots)
  {
    0 <= m < |roots| && IsReal(roots[m])
    && (forall j :: 0 <= j < |roots| && IsReal(roots[j]) ==> Cost(b, g, roots[m].re) <= Cost(b, g, roots[j].re))
    && (forall j :: 0 <= j < m && IsReal(roots[j]) ==> Cost(b, g, roots[m].re) < Cost(b, g, roots[j].re))
  }

  /** At most one root is the first minimum. */
  lemma FirstMinimumUnique(b: Sym2, g: Vec2, roots: seq<Complex>, m: int, n: int)
    requires Admissible(b, roots)
    requires IsFirstMinimum(b, g, roots, m) && IsFirstMinimum(b, g, roots, n)
    ensures m == n
  {
  }

  /** The loop of subspace2D_step over the four roots: -1 when none is real,
      otherwise the index of the first real root of least cost. */
  method FirstMinimizer(b: Sym2, g: Vec2, roots: seq<Complex>) returns (mini: int)
    requires |roots| == 4 && Admissible(b, roots)
    ensures mini == -1 <==> forall j :: 0 <= j < |roots| ==> !IsReal(roots[j])
    ensures mini != -1 ==> IsFirstMinimum(b, g, roots, mini)
  {
    var min := 0.0;
    mini := -1;
    for i := 0 to 4
      invariant -1 <= mini < i
      invariant mini == -1 <==> forall j :: 0 <= j < i ==> !IsReal(roots[j])
      invariant mini != -1 ==> IsReal(roots[mini]) && min == Cost(b, g, roots[mini].re)
      invariant mini != -1 ==> forall j :: 0 <= j < i && IsReal(roots[j]) ==> min <= Cost(b, g, roots[j].re)
      invariant mini != -1 ==> forall j :: 0 <= j < mini && IsReal(roots[j]) ==> min < Cost(b, g, roots[j].re)
    {
      if Abs(roots[i].im) < DBL_EPSILON {
        var x := Solution(b, g, roots[i].re);
        var cost := Objective(b, g, x);
        if mini < 0 || cost < min {
          mini := i;
          min := cost;
        }
      }
    }
  }

  // ---------------------------------------------------------------------
  // Where the three kinds of step land

  /** A vector whose norm n is at most delta lies inside the trust region. */
  lemma InsideRegion(n: real, s: real, delta: real)
    requires 0.0 <= n <= delta && n * n == s
    ensures s <= delta * delta
  {
    assert n * n <= n * delta;
    assert n * delta <= delta * delta;
  }

  /** applyQ keeps Euclidean norms, as multiplication by an orthogonal Q
      does. */
  ghost predicate KeepsNorms(applyQ: seq<real> -> seq<real>)
  {
    forall v :: SumSq(applyQ(v)) == SumSq(v)
  }

  /** A multiplier that is an exact root of the quartic gives a step which,
      padded and carried back by an orthogonal Q, has length delta. */
  lemma BoundaryStep(b: Sym2, g: Vec2, normg: real, delta: real, lam: real, p: nat, applyQ: seq<real> -> seq<real>)
    requires delta > 0.0 && normg * normg == NormSq(g) && p >= 2
    requires Det(Shift(b, lam)) != 0.0
    requires KeepsNorms(applyQ)
    requires EvalQuartic(QuarticCoefficients(Trace(b), Det(b), normg, Term0(b, g), Term1(b, g), delta), lam) == 0.0
    ensures SumSq(applyQ(Pad(Solution(b, g, lam), p))) == delta * delta
  {
    QuarticRootIffOnBoundary(b, g, normg, delta, lam);
    PadSumSq(Solution(b, g, lam), p);
  }

  /** gsl_vector_memcpy into a buffer of the same length. */
  method Copy(dst: array<real>, src: seq<real>)
    requires dst.Length == |src|
    modifies dst
    ensures dst[..] == src
  {
    forall i | 0 <= i < dst.Length {
      dst[i] := src[i];
    }
  }

  /** gsl_vector_scale: every entry multiplied by c, in place. */
  method ScaleInPlace(a: array<real>, c: real)
    modifies a
    ensures a[..] == Scale(old(a[..]), c)
  {
    ghost var s := a[..];
    forall i | 0 <= i < a.Length {
      a[i] := a[i] * c;
    }
    forall i | 0 <= i < a.Length
      ensures a[..][i] == Scale(s, c)[i]
    {
      ScaleAt(s, c, i);
    }
  }

  /** n is the Euclidean norm of v: what gsl_blas_dnrm2 returns for it. */
  ghost predicate IsNorm(n: real, v: seq<real>)
  {
    0.0 <= n && n * n == SumSq(v)
  }

  /** The steepest-descent step length alpha = |g|^2 / |J g|^2, as
      subspace2D_preloop forms it from the two norms (u = |g| / |J g|). */
  function Alpha(normG: real, normJg: real): real
    requires normJg != 0.0
  {
    var u := normG / normJg;
    u * u
  }

  /** Alpha is the ratio |g|^2 / |J g|^2 that the variable's comment in
      subspace2D_preloop names. */
  lemma AlphaRatio(normG: real, normJg: real)
    requires normJg != 0.0
    ensures Alpha(normG, normJg) * (normJg * normJg) == normG * normG
  {
    var u := normG / normJg;
    assert u * normJg == normG;
    assert (u * u) * (normJg * normJg) == (u * normJg) * (u * normJg);
  }

  // ---------------------------------------------------------------------
  // The method's state and its two entry points

  /** subspace2D_state_t, restricted to what preloop and step read and
      write: the Gauss-Newton and steepest-descent steps with their norms,
      the reduced gradient and matrix, the scalars derived from them, and
      the rank of [dx_sd, dx_gn]. */
  class State {
    const p: nat
    var dxGn: array<real>
    var dxSd: array<real>
    var normGn: real
    var normSd: real
    var subg: Vec2
    var subB: Sym2
    var trB: real
    var detB: real
    var normg: real
    var term0: real
    var term1: real
    var rank: nat

    /** Both step buffers hold p entries and are distinct. */
    ghost predicate Wellformed()
      reads this
    {
      dxGn.Length == p && dxSd.Length == p && dxGn != dxSd
    }

    /** The stored norms are the norms of the stored steps. */
    ghost predicate NormsValid()
      reads this`normGn, this`normSd, this`dxGn, this`dxSd, dxGn, dxSd
    {
      IsNorm(normGn, dxGn[..]) && IsNorm(normSd, dxSd[..])
    }

    /** With a full-rank subspace the stored scalars are the trace,
        determinant, |subg| and the two adjugate terms of the reduced
        problem. */
    ghost predicate ScalarsValid()
      reads this`rank, this`trB, this`detB, this`normg, this`term0, this`term1, this`subB, this`subg
    {
      rank <= 2
      && (rank == 2 ==>
            p >= 2 && trB == Trace(subB) && detB == Det(subB)
            && 0.0 <= normg && normg * normg == NormSq(subg)
            && term0 == Term0(subB, subg) && term1 == Term1(subB, subg))
    }

    /** What a successful preloop leaves behind. */
    ghost predicate Valid()
      reads this, dxGn, dxSd
    {
      Wellformed() && NormsValid() && ScalarsValid()
    }

    constructor (p: nat)
      ensures Wellformed() && this.p == p && fresh(dxGn) && fresh(dxSd)
    {
      this.p := p;
      dxGn := new real[p];
      dxSd := new real[p];
    }

    /** subspace2D_preloop. The linear solver's three calls report
        initStatus, presolveStatus and solveStatus and the solve writes
        gnStep into dx_gn; jg is J g; nrm2 is gsl_blas_dnrm2; qrRank is what
        qr_nonsing reports after the pivoted QR of [dx_sd, dx_gn]; qtg holds
        the first two entries of Q^T g and jwB the lower triangle of
        (J Q)^T (J Q) restricted to the first two columns. */
    method Preloop(initStatus: int, presolveStatus: int, solveStatus: int, gnStep: seq<real>,
                   g: seq<real>, jg: seq<real>, nrm2: seq<real> -> real,
                   qrRank: nat, qtg: Vec2, jwB: Sym2) returns (status: int)
      requires Wellformed() && |gnStep| == p && |g| == p
      requires forall v :: IsNorm(nrm2(v), v)
      requires nrm2(jg) != 0.0
      requires qrRank <= 2 && (qrRank == 2 ==> p >= 2)
      modifies this, dxGn, dxSd
      ensures Wellformed() && dxGn == old(dxGn) && dxSd == old(dxSd)
      ensures status == SUCCESS <==> initStatus == SUCCESS && presolveStatus == SUCCESS && solveStatus == SUCCESS
      ensures initStatus != SUCCESS ==> status == initStatus
      ensures initStatus == SUCCESS && presolveStatus != SUCCESS ==> status == presolveStatus
      ensures initStatus == SUCCESS && presolveStatus == SUCCESS ==> status == solveStatus
      ensures initStatus != SUCCESS || presolveStatus != SUCCESS ==> dxGn[..] == old(dxGn[..])
      ensures initStatus == SUCCESS && presolveStatus == SUCCESS ==> dxGn[..] == gnStep
      ensures status != SUCCESS ==> unchanged(this) && dxSd[..] == old(dxSd[..])
      ensures status == SUCCESS ==> Valid()
      ensures status == SUCCESS ==>
                dxSd[..] == Scale(g, -Alpha(nrm2(g), nrm2(jg)))
                && normGn == nrm2(gnStep) && normSd == nrm2(dxSd[..]) && rank == qrRank
      ensures status == SUCCESS && qrRank == 2 ==>
                subg == qtg && subB == jwB && normg == nrm2([qtg.x0, qtg.x1])
      ensures status == SUCCESS && qrRank != 2 ==>
                subg == old(subg) && subB == old(subB) && trB == old(trB) && detB == old(detB)
                && normg == old(normg) && term0 == old(term0) && term1 == old(term1)
    {
      if initStatus != SUCCESS {
        return initStatus;
      }
      if presolveStatus != SUCCESS {
        return presolveStatus;
      }
      Copy(dxGn, gnStep);
      if solveStatus != SUCCESS {
        return solveStatus;
      }
      var alpha := Alpha(nrm2(g), nrm2(jg));
      Copy(dxSd, g);
      ScaleInPlace(dxSd, -alpha);
      normGn := nrm2(dxGn[..]);
      normSd := nrm2(dxSd[..]);
      rank := qrRank;
      if rank == 2 {
        ReduceSubspace(qtg, jwB, nrm2);
      }
      return SUCCESS;
    }

    /** The full-rank block of subspace2D_preloop: store the reduced
        gradient and matrix and the scalars the quartic is built from. */
    method ReduceSubspace(qtg: Vec2, jwB: Sym2, nrm2: seq<real> -> real)
      requires forall v :: IsNorm(nrm2(v), v)
      modifies this`subg, this`subB, this`trB, this`detB, this`normg, this`term0, this`term1
      ensures subg == qtg && subB == jwB && normg == nrm2([qtg.x0, qtg.x1])
      ensures trB == Trace(subB) && detB == Det(subB)
      ensures 0.0 <= normg && normg * normg == NormSq(subg)
      ensures term0 == Term0(subB, subg) && term1 == Term1(subB, subg)
    {
      subg := qtg;
      subB := jwB;
      var b00, b10, b11 := subB.b00, subB.b10, subB.b11;
      var g0, g1 := subg.x0, subg.x1;
      trB := b00 + b11;
      detB := b00 * b11 - b10 * b10;
      normg := nrm2([g0, g1]);
      PairSumSq(g0, g1);
      term0 := (b10 * b10 + b11 * b11) * g0 * g0
               - 2.0 * b10 * (b00 + b11) * g0 * g1
               + (b00 * b00 + b10 * b10) * g1 * g1;
      term1 := b11 * g0 * g0 + g1 * (b00 * g1 - 2.0 * b10 * g0);
    }

    /** The quartic subspace2D_step hands to the root finder for trust
        radius delta. */
    function Coefficients(delta: real): Quartic
      reads this`trB, this`detB, this`normg, this`term0, this`term1
      requires delta > 0.0
    {
      QuarticCoefficients(trB, detB, normg, term0, term1, delta)
    }

    /** subspace2D_step. rootFinder is gsl_poly_complex_solve applied to the
        coefficients (its status and the four roots); applyQ is
        gsl_linalg_QR_Qvec with the stored factorisation. Both enter with a
        length contract only; when applyQ keeps norms (Q orthogonal) and the
        chosen root is exact, the step lies on the boundary. */
    method Step(delta: real, rootFinder: Quartic -> Checked<seq<Complex>>,
                applyQ: seq<real> -> seq<real>, dx: array<real>) returns (status: int)
      requires Valid() && delta > 0.0 && dx.Length == p && dx != dxGn && dx != dxSd
      requires normGn > delta && rank < 2 ==> normSd != 0.0
      requires forall q :: |rootFinder(q).value| == 4
      requires forall v :: |applyQ(v)| == |v|
      requires normGn > delta && rank == 2 ==> Admissible(subB, rootFinder(Coefficients(delta)).value)
      modifies dx
      ensures normGn <= delta ==> status == SUCCESS && dx[..] == dxGn[..]
      ensures normGn <= delta ==> SumSq(dx[..]) <= delta * delta
      ensures normGn > delta && rank < 2 ==> status == SUCCESS && dx[..] == Scale(dxSd[..], delta / normSd)
      ensures normGn > delta && rank < 2 ==> SumSq(dx[..]) == delta * delta
      ensures normGn > delta && rank == 2 ==> FullRankOutcome(delta, rootFinder, applyQ, status, old(dx[..]), dx[..])
    {
      if normGn <= delta {
        Copy(dx, dxGn[..]);
        InsideRegion(normGn, SumSq(dxGn[..]), delta);
        return SUCCESS;
      } else if rank < 2 {
        Copy(dx, dxSd[..]);
        ScaleInPlace(dx, delta / normSd);
        ScaledToRadius(dxSd[..], normSd, delta);
        return SUCCESS;
      } else {
        status := SubspaceStep(delta, rootFinder, applyQ, dx);
      }
    }

    /** What the full-rank branch of subspace2D_step leaves: a root-finder
        failure is returned with dx untouched; with no real root the step
        still reports GSL_SUCCESS and dx is untouched; otherwise dx is Q
        applied to the padded solution at the first real root of least cost,
        and that step has length delta when Q keeps norms and the root is
        exact. */
    ghost predicate FullRankOutcome(delta: real, rootFinder: Quartic -> Checked<seq<Complex>>,
                                    applyQ: seq<real> -> seq<real>, status: int,
                                    before: seq<real>, after: seq<real>)
      reads this`trB, this`detB, this`normg, this`term0, this`term1, this`subB, this`subg
      requires delta > 0.0 && p >= 2
      requires forall q :: |rootFinder(q).value| == 4
      requires Admissible(subB, rootFinder(Coefficients(delta)).value)
    {
      var found := rootFinder(Coefficients(delta));
      var roots := found.value;
      && (found.errno != SUCCESS ==> status == found.errno && after == before)
      && (found.errno == SUCCESS && (forall j :: 0 <= j < 4 ==> !IsReal(roots[j])) ==>
            status == SUCCESS && after == before)
      && (found.errno == SUCCESS && (exists j :: 0 <= j < 4 && IsReal(roots[j])) ==>
            status == SUCCESS
            && exists m :: IsFirstMinimum(subB, subg, roots, m)
                           && after == applyQ(Pad(Solution(subB, subg, roots[m].re), p))
                           && (KeepsNorms(applyQ) && EvalQuartic(Coefficients(delta), roots[m].re) == 0.0
                               ==> SumSq(after) == delta * delta))
    }

    /** The full-rank branch of subspace2D_step: solve the quartic, scan its
        roots and map the chosen reduced step back to p dimensions. */
    method SubspaceStep(delta: real, rootFinder: Quartic -> Checked<seq<Complex>>,
                        applyQ: seq<real> -> seq<real>, dx: array<real>) returns (status: int)
      requires ScalarsValid() && rank == 2 && delta > 0.0 && dx.Length == p
      requires forall q :: |rootFinder(q).value| == 4
      requires forall v :: |applyQ(v)| == |v|
      requires Admissible(subB, rootFinder(Coefficients(delta)).value)
      modifies dx
      ensures FullRankOutcome(delta, rootFinder, applyQ, status, old(dx[..]), dx[..])
    {
      var found := rootFinder(Coefficients(delta));
      if found.errno != SUCCESS {
        return found.errno;
      }
      var roots := found.value;
      var mini := FirstMinimizer(subB, subg, roots);
      if mini < 0 {
        return SUCCESS;
      }
      var x := Solution(subB, subg, roots[mini].re);
      Copy(dx, applyQ(Pad(x, p)));
      if KeepsNorms(applyQ) && EvalQuartic(Coefficients(delta), roots[mini].re) == 0.0 {
        BoundaryStep(subB, subg, normg, delta, roots[mini].re, p, applyQ);
      }
      return SUCCESS;
    }
  }
}
