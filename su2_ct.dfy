/**
 * Scaled SU(2) Clifford+T matrices (qualtran/rotation_synthesis/matrix/su2_ct.py).
 *
 * An exactly synthesizable unitary is sqrt(2 (2 + sqrt 2)^n)^-1 [[u, -v*], [v, u*]] with u and v
 * in Z[w]; the model keeps the integral matrix [[u, -v*], [v, u*]] and leaves the scale
 * implicit, as the source does. Products divide by sqrt(2), so that a product of generators
 * scaled by sqrt(2) is again scaled by sqrt(2).
 */
module SU2CliffordT {
  import opened Wrappers
  import Z2 = ZSqrt2Ring
  import W = ZOmegaRing

  type ZW = W.ZW

  // ---------------------------------------------------------------------------------
  // Parity

  predicate Odd(n: int) { n % 2 == 1 }

  lemma OddAdd(m: int, n: int)
    ensures Odd(m + n) <==> Odd(m) != Odd(n)
    ensures Odd(m - n) <==> Odd(m) != Odd(n)
  {
    var qm, rm, qn, rn := m / 2, m % 2, n / 2, n % 2;
    ParityOf(m + n, qm + qn, rm + rn);
    ParityOf(m - n, qm - qn, rm - rn);
  }

  /** The parity of v == 2q + s for s in [-1, 2]. */
  lemma ParityOf(v: int, q: int, s: int)
    requires v == 2 * q + s && -1 <= s <= 2
    ensures Odd(v) <==> s == 1 || s == -1
  {
    if s == 2 {
      assert v == 2 * (q + 1);
    } else if s == -1 {
      assert v == 2 * (q - 1) + 1;
    }
  }

  lemma OddNeg(m: int)
    ensures Odd(-m) <==> Odd(m)
  {}

  lemma OddShift(m: int, k: int)
    ensures Odd(m - 2 * k) <==> Odd(m)
    ensures Odd(m + 2 * k) <==> Odd(m)
  {}

  lemma EvenShift(t: int, e: int, k: int)
    requires t == e - 2 * k && !Odd(e)
    ensures !Odd(t)
  {}

  lemma OddMul(m: int, n: int)
    ensures Odd(m * n) <==> Odd(m) && Odd(n)
  {
    var i, j := m / 2, n / 2;
    var p := m * n;
    if m % 2 == 0 {
      var k := i * n;
      assert p == 2 * k by { assert m == 2 * i; }
    } else if n % 2 == 0 {
      var k := m * j;
      assert p == 2 * k by { assert n == 2 * j; }
    } else {
      var k := 2 * i * j + i + j;
      assert p == 2 * k + 1 by { assert m == 2 * i + 1 && n == 2 * j + 1; }
    }
  }

  // ---------------------------------------------------------------------------------
  // Residues modulo sqrt(2)

  /** The sums of the even and of the odd coordinates. */
  function EvenSum(x: ZW): int { x.c0 + x.c2 }

  function OddSum(x: ZW): int { x.c1 + x.c3 }

  /**
   * The class of x modulo sqrt(2), given by the parities of EvenSum(x) and OddSum(x). The
   * quotient Z[w]/(sqrt 2) has four elements, and the class of x is zero exactly when x is a
   * multiple of sqrt(2).
   */
  datatype Residue = Residue(e: bool, o: bool)

  const ResidueZero := Residue(false, false)

  function ResidueOf(x: ZW): Residue { Residue(Odd(x.c0 + x.c2), Odd(x.c1 + x.c3)) }

  function RAdd(r: Residue, s: Residue): Residue { Residue(r.e != s.e, r.o != s.o) }

  /** Multiplication in Z[w]/(sqrt 2): the class of w squares to the class of 1. */
  function RMul(r: Residue, s: Residue): Residue {
    Residue((r.e && s.e) != (r.o && s.o), (r.e && s.o) != (r.o && s.e))
  }

  predicate Sqrt2Multiple(x: ZW) { ResidueOf(x) == ResidueZero }

  lemma ResidueLinear(x: ZW, y: ZW)
    ensures ResidueOf(W.Add(x, y)) == RAdd(ResidueOf(x), ResidueOf(y))
    ensures ResidueOf(W.Sub(x, y)) == RAdd(ResidueOf(x), ResidueOf(y))
    ensures ResidueOf(W.Neg(x)) == ResidueOf(x)
    ensures ResidueOf(W.Conj(x)) == ResidueOf(x)
  {
    OddAdd(EvenSum(x), EvenSum(y));
    OddAdd(OddSum(x), OddSum(y));
    assert EvenSum(W.Neg(x)) == -EvenSum(x) && OddSum(W.Neg(x)) == -OddSum(x);
    OddNeg(EvenSum(x));
    OddNeg(OddSum(x));
    assert EvenSum(W.Conj(x)) == EvenSum(x) - 2 * x.c2 && OddSum(W.Conj(x)) == -OddSum(x);
    OddShift(EvenSum(x), x.c2);
  }

  lemma ConvolveSums(x0: int, x1: int, x2: int, x3: int, y0: int, y1: int, y2: int, y3: int)
    ensures var r := W.Convolve(x0, x1, x2, x3, y0, y1, y2, y3);
      && r.c0 + r.c2 == (x0 + x2) * (y0 + y2) + (x1 + x3) * (y1 + y3)
                        - 2 * (x2 * y2 + x1 * y3 + x3 * y1 + x3 * y3)
      && r.c1 + r.c3 == (x0 + x2) * (y1 + y3) + (x1 + x3) * (y0 + y2) - 2 * (x2 * y3 + x3 * y2)
  {}

  /** Odd(p * q + r * t - 2 * k) from the parities of p, q, r and t. */
  lemma OddBilinear(p: int, q: int, r: int, t: int, k: int)
    ensures Odd(p * q + r * t - 2 * k) <==> (Odd(p) && Odd(q)) != (Odd(r) && Odd(t))
  {
    OddShift(p * q + r * t, k);
    OddAdd(p * q, r * t);
    OddMul(p, q);
    OddMul(r, t);
  }

  /** The class of a product is the product of the classes. */
  lemma ResidueMul(x: ZW, y: ZW)
    ensures ResidueOf(W.Mul(x, y)) == RMul(ResidueOf(x), ResidueOf(y))
  {
    ConvolveSums(x.c0, x.c1, x.c2, x.c3, y.c0, y.c1, y.c2, y.c3);
    OddBilinear(EvenSum(x), EvenSum(y), OddSum(x), OddSum(y),
      x.c2 * y.c2 + x.c1 * y.c3 + x.c3 * y.c1 + x.c3 * y.c3);
    OddBilinear(EvenSum(x), OddSum(y), OddSum(x), EvenSum(y), x.c2 * y.c3 + x.c3 * y.c2);
  }

  // ---------------------------------------------------------------------------------
  // Division by sqrt(2) and by 2 + sqrt(2)

  /** The quotient by sqrt(2) of a multiple of sqrt(2). */
  function HalfW(x: ZW): ZW {
    W.ZW((x.c1 - x.c3) / 2, (x.c0 + x.c2) / 2, (x.c1 + x.c3) / 2, (x.c2 - x.c0) / 2)
  }

  /** x * sqrt(2) in coordinates, with sqrt(2) written ZW(0, b, 0, -b) for b == 1. */
  lemma MulSqrt2(x: ZW, b: int)
    requires b == 1
    ensures W.Mul(x, W.ZW(0, b, 0, -b)) == W.ZW(x.c1 - x.c3, x.c0 + x.c2, x.c1 + x.c3, x.c2 - x.c0)
    ensures W.Mul(W.ZW(0, b, 0, -b), x) == W.ZW(x.c1 - x.c3, x.c0 + x.c2, x.c1 + x.c3, x.c2 - x.c0)
  {}

  /** x * (2 + sqrt(2)) in coordinates, with 2 + sqrt(2) written ZW(2b, b, 0, -b) for b == 1. */
  lemma MulLambda(x: ZW, b: int)
    requires b == 1
    ensures W.Mul(x, W.ZW(2 * b, b, 0, -b))
         == W.ZW(2 * x.c0 + x.c1 - x.c3, 2 * x.c1 + x.c0 + x.c2, 2 * x.c2 + x.c1 + x.c3,
                 2 * x.c3 + x.c2 - x.c0)
  {}

  /** The halves HalfW takes are exact for a multiple of sqrt(2). */
  lemma HalfWExact(x: ZW)
    requires Sqrt2Multiple(x)
    ensures var h := HalfW(x);
      && 2 * h.c0 == x.c1 - x.c3 && 2 * h.c1 == x.c0 + x.c2
      && 2 * h.c2 == x.c1 + x.c3 && 2 * h.c3 == x.c2 - x.c0
  {
    OddShift(x.c1 + x.c3, x.c3);
    OddShift(x.c2 + x.c0, x.c0);
  }

  /** The multiples of sqrt(2) are exactly the products q * sqrt(2), with q == HalfW(x); the
      class of the quotient is read off x.c1 and x.c2. */
  lemma HalfWSpec(x: ZW)
    requires Sqrt2Multiple(x)
    ensures W.Mul(HalfW(x), W.Sqrt2) == x
    ensures EvenSum(HalfW(x)) == x.c1 && OddSum(HalfW(x)) == x.c2
  {
    HalfWExact(x);
    MulSqrt2(HalfW(x), 1);
  }

  lemma Sqrt2MultipleOfProduct(q: ZW)
    ensures Sqrt2Multiple(W.Mul(q, W.Sqrt2))
    ensures HalfW(W.Mul(q, W.Sqrt2)) == q
  {
    MulSqrt2(q, 1);
    OddShift(0, q.c1);
    OddShift(0, q.c2);
  }

  /**
   * `is_divisible_by(SQRT_2)` is the parity test Sqrt2Multiple, and `// SQRT_2` is HalfW.
   * The divisor is sqrt(2) == ZW(0, 1, 0, -1), written through b == 1.
   */
  lemma Sqrt2Division(x: ZW, b: int)
    requires b == 1
    ensures W.IsDivisibleBy(x, W.ZW(0, b, 0, -b)) <==> Sqrt2Multiple(x)
    ensures Sqrt2Multiple(x) ==> W.FloorDiv(x, W.ZW(0, b, 0, -b)) == HalfW(x)
  {
    var y := W.ZW(0, b, 0, -b);
    if W.IsDivisibleBy(x, y) {
      W.FloorDivExact(x, y);
      var q := W.FloorDiv(x, y);
      MulSqrt2(q, b);
      OddShift(0, q.c1);
      OddShift(0, q.c2);
    }
    if Sqrt2Multiple(x) {
      var h := HalfW(x);
      HalfWExact(x);
      MulSqrt2(h, b);
      W.MultipleIsDivisible(h, y);
      W.FloorDivExact(x, y);
      MulSqrt2(W.FloorDiv(x, y), b);
    }
  }

  /** The quotient by 2 + sqrt(2) == sqrt(2) (1 + sqrt(2)) of a multiple of sqrt(2): as
      1 + sqrt(2) is a unit with inverse sqrt(2) - 1, it is HalfW(x) (sqrt(2) - 1). */
  function LambdaQuotient(x: ZW): ZW { W.Sub(x, HalfW(x)) }

  /**
   * `is_divisible_by(LAMBDA_KLIUCHNIKOV)` is again the parity test, and
   * `// LAMBDA_KLIUCHNIKOV` is LambdaQuotient. The divisor is 2 + sqrt(2) == ZW(2, 1, 0, -1),
   * written through b == 1.
   */
  lemma LambdaDivision(x: ZW, b: int)
    requires b == 1
    ensures W.IsDivisibleBy(x, W.ZW(2 * b, b, 0, -b)) <==> Sqrt2Multiple(x)
    ensures Sqrt2Multiple(x) ==> W.FloorDiv(x, W.ZW(2 * b, b, 0, -b)) == LambdaQuotient(x)
  {
    if W.IsDivisibleBy(x, W.ZW(2 * b, b, 0, -b)) {
      LambdaDivisorIsSqrt2Multiple(x, b);
    }
    if Sqrt2Multiple(x) {
      LambdaQuotientExact(x, b);
    }
  }

  lemma LambdaDivisorIsSqrt2Multiple(x: ZW, b: int)
    requires b == 1 && W.IsDivisibleBy(x, W.ZW(2 * b, b, 0, -b))
    ensures Sqrt2Multiple(x)
  {
    var y := W.ZW(2 * b, b, 0, -b);
    W.FloorDivExact(x, y);
    var q := W.FloorDiv(x, y);
    MulLambda(q, b);
    OddShift(0, q.c0 + q.c1 + q.c2);
    OddShift(0, q.c1 + q.c2 + q.c3);
  }

  lemma LambdaQuotientExact(x: ZW, b: int)
    requires b == 1 && Sqrt2Multiple(x)
    ensures W.IsDivisibleBy(x, W.ZW(2 * b, b, 0, -b))
    ensures W.FloorDiv(x, W.ZW(2 * b, b, 0, -b)) == LambdaQuotient(x)
  {
    var y := W.ZW(2 * b, b, 0, -b);
    var l := LambdaQuotient(x);
    assert W.Mul(l, y) == x by {
      HalfWExact(x);
      MulLambda(l, b);
    }
    W.MultipleIsDivisible(l, y);
    W.FloorDivExact(x, y);
    MulLambda(W.FloorDiv(x, y), b);
  }

  /** Division of an element of Z[sqrt 2] by 2 + sqrt(2): possible exactly when a is even. */
  predicate LambdaDividesZ2(x: Z2.ZSqrt2) { x.a % 2 == 0 }

  function LambdaQuotientZ2(x: Z2.ZSqrt2): Z2.ZSqrt2 { Z2.ZSqrt2(x.a - x.b, x.b - x.a / 2) }

  /**
   * `det.is_divisible_by(l_v)` is LambdaDividesZ2 and `det // l_v` is LambdaQuotientZ2, for
   * `l_v = ZSqrt2(2, 1)`, written through b == 1.
   */
  lemma Z2LambdaDivision(x: Z2.ZSqrt2, b: int)
    requires b == 1
    ensures Z2.IsDivisibleBy(x, Z2.ZSqrt2(2 * b, b)) <==> LambdaDividesZ2(x)
    ensures LambdaDividesZ2(x) ==> Z2.FloorDiv(x, Z2.ZSqrt2(2 * b, b)) == LambdaQuotientZ2(x)
  {
    var y := Z2.ZSqrt2(2 * b, b);
    if Z2.IsDivisibleBy(x, y) {
      Z2.FloorDivExact(x, y);
      var q := Z2.FloorDiv(x, y);
      assert Z2.Mul(q, y) == Z2.ZSqrt2(2 * (q.a + q.b), q.a + 2 * q.b);
    }
    if LambdaDividesZ2(x) {
      var l := LambdaQuotientZ2(x);
      assert Z2.Mul(l, y) == x;
      Z2.MultipleIsDivisible(l, y);
      Z2.FloorDivExact(x, y);
      var q := Z2.FloorDiv(x, y);
      assert Z2.Mul(q, y) == Z2.ZSqrt2(2 * (q.a + q.b), q.a + 2 * q.b);
    }
  }

  // ---------------------------------------------------------------------------------
  // Ring laws used below

  lemma MulLeftLinear(x: ZW, y: ZW, z: ZW)
    ensures W.Mul(W.Add(x, y), z) == W.Add(W.Mul(x, z), W.Mul(y, z))
    ensures W.Mul(W.Sub(x, y), z) == W.Sub(W.Mul(x, z), W.Mul(y, z))
  {
    W.MulComm(W.Add(x, y), z);
    W.MulComm(W.Sub(x, y), z);
    W.MulAddDistrib(z, x, y);
    W.MulComm(x, z);
    W.MulComm(y, z);
  }

  lemma ConvolveNeg(x0: int, x1: int, x2: int, x3: int, y0: int, y1: int, y2: int, y3: int)
    ensures W.Convolve(-x0, -x1, -x2, -x3, y0, y1, y2, y3)
         == W.Neg(W.Convolve(x0, x1, x2, x3, y0, y1, y2, y3))
  {
    assert (-x0) * y0 == -(x0 * y0) && (-x0) * y1 == -(x0 * y1);
    assert (-x0) * y2 == -(x0 * y2) && (-x0) * y3 == -(x0 * y3);
    assert (-x1) * y0 == -(x1 * y0) && (-x1) * y1 == -(x1 * y1);
    assert (-x1) * y2 == -(x1 * y2) && (-x1) * y3 == -(x1 * y3);
    assert (-x2) * y0 == -(x2 * y0) && (-x2) * y1 == -(x2 * y1);
    assert (-x2) * y2 == -(x2 * y2) && (-x2) * y3 == -(x2 * y3);
    assert (-x3) * y0 == -(x3 * y0) && (-x3) * y1 == -(x3 * y1);
    assert (-x3) * y2 == -(x3 * y2) && (-x3) * y3 == -(x3 * y3);
  }

  lemma MulNeg(x: ZW, y: ZW)
    ensures W.Mul(W.Neg(x), y) == W.Neg(W.Mul(x, y))
    ensures W.Mul(x, W.Neg(y)) == W.Neg(W.Mul(x, y))
  {
    ConvolveNeg(x.c0, x.c1, x.c2, x.c3, y.c0, y.c1, y.c2, y.c3);
    W.MulComm(x, W.Neg(y));
    W.MulComm(x, y);
    ConvolveNeg(y.c0, y.c1, y.c2, y.c3, x.c0, x.c1, x.c2, x.c3);
  }

  /** conj(x y) == conj(x) conj(y), conj(conj(x)) == x, and conj commutes with negation. */
  lemma ConjLaws(x: ZW, y: ZW)
    ensures W.Conj(W.Mul(x, y)) == W.Mul(W.Conj(x), W.Conj(y))
    ensures W.Conj(W.Conj(x)) == x
    ensures W.Conj(W.Neg(x)) == W.Neg(W.Conj(x))
  {
    W.ConjugationLaws(x, y);
  }

  // ---------------------------------------------------------------------------------
  // Matrices

  /** A 2x2 matrix over Z[w], row-major: [[a, b], [c, d]]. */
  datatype Mat = Mat(a: ZW, b: ZW, c: ZW, d: ZW)

  /** `SU2CliffordT(matrix, gates)`. The gates, when known, are in circuit order. */
  datatype SU2 = SU2(m: Mat, gates: Option<seq<string>>)

  /** The integral product `self.matrix @ other.matrix`. */
  function Raw(x: Mat, y: Mat): Mat {
    Mat(W.Add(W.Mul(x.a, y.a), W.Mul(x.b, y.c)), W.Add(W.Mul(x.a, y.b), W.Mul(x.b, y.d)),
        W.Add(W.Mul(x.c, y.a), W.Mul(x.d, y.c)), W.Add(W.Mul(x.c, y.b), W.Mul(x.d, y.d)))
  }

  /** Every entry is divisible by sqrt(2). */
  predicate AllSqrt2Multiples(m: Mat) {
    Sqrt2Multiple(m.a) && Sqrt2Multiple(m.b) && Sqrt2Multiple(m.c) && Sqrt2Multiple(m.d)
  }

  function HalfM(m: Mat): Mat { Mat(HalfW(m.a), HalfW(m.b), HalfW(m.c), HalfW(m.d)) }

  /** The entrywise product `matrix * c` of `__mul__` and `__rmul__`. */
  function TimesM(m: Mat, c: ZW): Mat { Mat(W.Mul(m.a, c), W.Mul(m.b, c), W.Mul(m.c, c), W.Mul(m.d, c)) }

  /** `other.gates + self.gates` when both are known: `other` acts first. */
  function JoinGates(first: Option<seq<string>>, second: Option<seq<string>>): Option<seq<string>> {
    if first.Some? && second.Some? then Some(first.value + second.value) else None
  }

  /**
   * `self @ other`: the product of the matrices divided entrywise by sqrt(2), with the gates
   * of `other` followed by those of `self`. None when an entry of the product is not
   * divisible by sqrt(2), where the source's assertion fails.
   */
  function MatMul(g: SU2, h: SU2): (r: Option<SU2>)
    ensures r.Some? <==> AllSqrt2Multiples(Raw(g.m, h.m))
    ensures r.Some? ==> TimesM(r.value.m, W.Sqrt2) == Raw(g.m, h.m)
    ensures r.Some? ==> r.value.gates == JoinGates(h.gates, g.gates)
  {
    var p := Raw(g.m, h.m);
    if AllSqrt2Multiples(p) then
      HalfWSpec(p.a);
      HalfWSpec(p.b);
      HalfWSpec(p.c);
      HalfWSpec(p.d);
      Some(SU2(HalfM(p), JoinGates(h.gates, g.gates)))
    else
      None
  }

  /** `g * c` and `c * g` for c in Z[w]: every entry times c; the gates are kept. */
  function Times(g: SU2, c: ZW): SU2 { SU2(TimesM(g.m, c), g.gates) }

  /** `-g`: the gates are dropped. */
  function Negate(g: SU2): SU2 {
    SU2(Mat(W.Neg(g.m.a), W.Neg(g.m.b), W.Neg(g.m.c), W.Neg(g.m.d)), None)
  }

  /** `g + h`: the gates are dropped. */
  function Plus(g: SU2, h: SU2): SU2 {
    SU2(Mat(W.Add(g.m.a, h.m.a), W.Add(g.m.b, h.m.b), W.Add(g.m.c, h.m.c), W.Add(g.m.d, h.m.d)), None)
  }

  /** `adjoint()`: the conjugate transpose; the gates are dropped. */
  function Adjoint(g: SU2): SU2 {
    SU2(Mat(W.Conj(g.m.a), W.Conj(g.m.c), W.Conj(g.m.b), W.Conj(g.m.d)), None)
  }

  // ---------------------------------------------------------------------------------
  // The shape [[u, -v*], [v, u*]] and closure under products

  predicate Shaped(m: Mat) { m.b == W.Neg(W.Conj(m.c)) && m.d == W.Conj(m.a) }

  /**
   * The matrices the generators produce: shaped [[u, -v*], [v, u*]] with u and v congruent
   * modulo sqrt(2). MatMul always succeeds on them and keeps the property (MatMulClosed).
   */
  predicate Admissible(m: Mat) { Shaped(m) && ResidueOf(m.a) == ResidueOf(m.c) }

  lemma RawShaped(x: Mat, y: Mat)
    requires Shaped(x) && Shaped(y)
    ensures Shaped(Raw(x, y))
  {
    var u, v, p, q := x.a, x.c, y.a, y.c;
    var r := Raw(x, y);
    ConjLaws(v, p);
    ConjLaws(W.Conj(u), q);
    ConjLaws(u, p);
    ConjLaws(W.Neg(W.Conj(v)), q);
    ConjLaws(v, v);
    ConjLaws(q, q);
    MulNeg(u, W.Conj(q));
    MulNeg(W.Conj(v), W.Conj(p));
    MulNeg(v, W.Conj(q));
    MulNeg(W.Conj(v), q);
    assert r.b == W.Neg(W.Conj(r.c));
    assert r.d == W.Conj(r.a);
  }

  lemma RawSqrt2Multiples(x: Mat, y: Mat)
    requires Admissible(x) && Admissible(y)
    ensures AllSqrt2Multiples(Raw(x, y))
  {
    var u, v, p, q := x.a, x.c, y.a, y.c;
    var r := Raw(x, y);
    RawShaped(x, y);
    ResidueLinear(v, v);
    ResidueLinear(u, u);
    ResidueLinear(W.Conj(v), v);
    ResidueMul(u, p);
    ResidueMul(W.Neg(W.Conj(v)), q);
    ResidueMul(v, p);
    ResidueMul(W.Conj(u), q);
    ResidueLinear(W.Mul(u, p), W.Mul(W.Neg(W.Conj(v)), q));
    ResidueLinear(W.Mul(v, p), W.Mul(W.Conj(u), q));
    ResidueLinear(r.a, r.a);
    ResidueLinear(r.c, r.c);
    ResidueLinear(W.Conj(r.c), r.c);
  }

  /** Halving commutes with conjugation and negation. */
  lemma HalfWConj(x: ZW)
    requires Sqrt2Multiple(x)
    ensures Sqrt2Multiple(W.Conj(x)) && Sqrt2Multiple(W.Neg(x))
    ensures HalfW(W.Conj(x)) == W.Conj(HalfW(x))
    ensures HalfW(W.Neg(x)) == W.Neg(HalfW(x))
  {
    ResidueLinear(x, x);
    HalfWExact(x);
    HalfWExact(W.Conj(x));
    HalfWExact(W.Neg(x));
  }

  /**
   * For admissible x and y the top-left and bottom-left entries of Raw(x, y) differ by
   * sqrt(2) times a multiple of sqrt(2), up to an even term: coordinates 1 and 2 of the
   * difference are even. The divisor sqrt(2) is written ZW(0, b, 0, -b) with b == 1.
   */
  lemma RawDifferenceAt(x: Mat, y: Mat, b: int)
    requires b == 1 && Admissible(x) && Admissible(y)
    ensures var r := Raw(x, y); !Odd(W.Sub(r.a, r.c).c1) && !Odd(W.Sub(r.a, r.c).c2)
  {
    var u, v, p, q := x.a, x.c, y.a, y.c;
    var r := Raw(x, y);
    var s := W.ZW(0, b, 0, -b);
    var d := W.Sub(u, v);
    ResidueLinear(u, v);
    var h := HalfW(d);
    assert W.Mul(h, s) == d by {
      HalfWExact(d);
      MulSqrt2(h, b);
    }
    var a0, b0, c0 := W.Mul(d, p), W.Mul(W.Conj(d), q), W.Mul(W.Conj(v), q);
    var delta := W.Sub(r.a, r.c);
    RawDifferenceExpanded(u, v, p, q);
    var hp, hq := W.Mul(h, p), W.Mul(W.Conj(h), q);
    assert a0 == W.Mul(hp, s) by {
      W.MulAssoc(h, s, p);
      W.MulComm(s, p);
      W.MulAssoc(h, p, s);
    }
    assert b0 == W.Mul(hq, s) by {
      ConjLaws(h, s);
      W.MulAssoc(W.Conj(h), s, q);
      W.MulComm(s, q);
      W.MulAssoc(W.Conj(h), q, s);
    }
    var y0 := W.Sub(hp, hq);
    assert W.Sub(a0, b0) == W.Mul(y0, s) by { MulLeftLinear(hp, hq, s); }
    assert delta.c1 == EvenSum(y0) - 2 * c0.c1 && delta.c2 == OddSum(y0) - 2 * c0.c2 by {
      MulSqrt2(y0, b);
    }
    CrossDifference(h, p, q);
    EvenShift(delta.c1, EvenSum(y0), c0.c1);
    EvenShift(delta.c2, OddSum(y0), c0.c2);
  }

  /** (u p - v* q) - (v p + u* q) == (u - v) p - conj(u - v) q - 2 v* q. */
  lemma RawDifferenceExpanded(u: ZW, v: ZW, p: ZW, q: ZW)
    ensures W.Sub(W.Add(W.Mul(u, p), W.Mul(W.Neg(W.Conj(v)), q)), W.Add(W.Mul(v, p), W.Mul(W.Conj(u), q)))
         == W.Sub(W.Sub(W.Mul(W.Sub(u, v), p), W.Mul(W.Conj(W.Sub(u, v)), q)),
                  W.Add(W.Mul(W.Conj(v), q), W.Mul(W.Conj(v), q)))
  {
    MulLeftLinear(u, v, p);
    assert W.Conj(W.Sub(u, v)) == W.Sub(W.Conj(u), W.Conj(v));
    MulLeftLinear(W.Conj(u), W.Conj(v), q);
    MulNeg(W.Conj(v), q);
  }

  /** h p - conj(h) q is a multiple of sqrt(2) when p and q are congruent modulo sqrt(2). */
  lemma CrossDifference(h: ZW, p: ZW, q: ZW)
    requires ResidueOf(p) == ResidueOf(q)
    ensures Sqrt2Multiple(W.Sub(W.Mul(h, p), W.Mul(W.Conj(h), q)))
  {
    var rh, rp := ResidueOf(h), ResidueOf(p);
    ResidueLinear(h, h);
    ResidueMul(h, p);
    ResidueMul(W.Conj(h), q);
    ResidueLinear(W.Mul(h, p), W.Mul(W.Conj(h), q));
    assert ResidueOf(W.Sub(W.Mul(h, p), W.Mul(W.Conj(h), q))) == RAdd(RMul(rh, rp), RMul(rh, rp));
  }

  lemma RawDifference(x: Mat, y: Mat)
    requires Admissible(x) && Admissible(y)
    ensures var r := Raw(x, y); !Odd(W.Sub(r.a, r.c).c1) && !Odd(W.Sub(r.a, r.c).c2)
  {
    RawDifferenceAt(x, y, 1);
  }

  lemma HalfShaped(r: Mat)
    requires Shaped(r) && AllSqrt2Multiples(r)
    ensures Shaped(HalfM(r))
  {
    HalfWConj(r.c);
    HalfWConj(W.Conj(r.c));
    HalfWConj(r.a);
  }

  /** The halves of two multiples of sqrt(2) whose difference has even coordinates 1 and 2
      are congruent modulo sqrt(2). */
  lemma HalvesCongruent(x: ZW, y: ZW)
    requires Sqrt2Multiple(x) && Sqrt2Multiple(y)
    requires !Odd(W.Sub(x, y).c1) && !Odd(W.Sub(x, y).c2)
    ensures ResidueOf(HalfW(x)) == ResidueOf(HalfW(y))
  {
    HalfWResidue(x);
    HalfWResidue(y);
    OddAdd(x.c1, y.c1);
    OddAdd(x.c2, y.c2);
  }

  /** The class of the half of a multiple of sqrt(2) is read off its coordinates 1 and 2. */
  lemma HalfWResidue(x: ZW)
    requires Sqrt2Multiple(x)
    ensures ResidueOf(HalfW(x)) == Residue(Odd(x.c1), Odd(x.c2))
  {
    HalfWExact(x);
    var h := HalfW(x);
    assert h.c0 + h.c2 == x.c1;
    assert h.c1 + h.c3 == x.c2;
  }

  /** Products of admissible matrices are defined and admissible. */
  lemma MatMulClosed(g: SU2, h: SU2)
    requires Admissible(g.m) && Admissible(h.m)
    ensures MatMul(g, h).Some? && Admissible(MatMul(g, h).value.m)
  {
    var r := Raw(g.m, h.m);
    RawShaped(g.m, h.m);
    RawSqrt2Multiples(g.m, h.m);
    assert MatMul(g, h) == Some(SU2(HalfM(r), JoinGates(h.gates, g.gates)));
    HalfShaped(r);
    RawDifference(g.m, h.m);
    HalvesCongruent(r.a, r.c);
  }

  // ---------------------------------------------------------------------------------
  // Determinant

  /** a d - b c over Z[w]. */
  function DetW(m: Mat): ZW { W.Sub(W.Mul(m.a, m.d), W.Mul(m.b, m.c)) }

  /** x has the form p + q*sqrt(2) == ZW(p, q, 0, -q). */
  predicate InZSqrt2(x: ZW) { x.c2 == 0 && x.c3 == -x.c1 }

  /**
   * `det()`: a d - b c as an element of Z[sqrt 2]. None when it needs w or has an imaginary
   * part, where the source's assertions fail.
   */
  function Det(g: SU2): (r: Option<Z2.ZSqrt2>)
    ensures r.Some? <==> InZSqrt2(DetW(g.m))
    ensures r.Some? ==> W.Embed(r.value) == DetW(g.m)
  {
    var x := DetW(g.m);
    var t := W.ToZSqrt2(x);
    assert t.1 == Z2.Zero && !t.2 <==> InZSqrt2(x) by { ToZSqrt2Real(x); }
    if t.2 || t.1 != Z2.Zero then None else Some(t.0)
  }

  lemma ToZSqrt2Real(x: ZW)
    ensures var t := W.ToZSqrt2(x);
      (t.1 == Z2.Zero && !t.2 <==> InZSqrt2(x)) && (InZSqrt2(x) ==> W.Embed(t.0) == x)
  {
    var r := (x.c1 + x.c3) % 2;
    var k := (x.c1 + x.c3 - r) / 2;
    assert x.c1 + x.c3 == 2 * k + r;
  }

  /** The determinant of [[u, -v*], [v, u*]] is |u|^2 + |v|^2. */
  lemma DetShaped(m: Mat)
    requires Shaped(m)
    ensures DetW(m) == W.Embed(Z2.Add(W.AbsSquared(m.a), W.AbsSquared(m.c)))
    ensures Det(SU2(m, None)) == Some(Z2.Add(W.AbsSquared(m.a), W.AbsSquared(m.c)))
  {
    var u, v := m.a, m.c;
    MulNeg(W.Conj(v), v);
    W.MulComm(W.Conj(v), v);
    var z := Z2.Add(W.AbsSquared(m.a), W.AbsSquared(m.c));
    assert DetW(m) == W.Embed(z);
    assert InZSqrt2(DetW(m));
  }

  /** (a b)(c d) == (a c)(b d). */
  lemma Interchange(a: ZW, b: ZW, c: ZW, d: ZW)
    ensures W.Mul(W.Mul(a, b), W.Mul(c, d)) == W.Mul(W.Mul(a, c), W.Mul(b, d))
  {
    W.MulAssoc(a, b, W.Mul(c, d));
    W.MulAssoc(b, c, d);
    W.MulComm(b, c);
    W.MulAssoc(c, b, d);
    W.MulAssoc(a, c, W.Mul(b, d));
  }

  lemma ExpandSum(p: ZW, q: ZW, r: ZW, s: ZW)
    ensures W.Mul(W.Add(p, q), W.Add(r, s))
         == W.Add(W.Add(W.Mul(p, r), W.Mul(p, s)), W.Add(W.Mul(q, r), W.Mul(q, s)))
  {
    MulLeftLinear(p, q, W.Add(r, s));
    W.MulAddDistrib(p, r, s);
    W.MulAddDistrib(q, r, s);
  }

  lemma ExpandDifference(p: ZW, q: ZW, r: ZW, s: ZW)
    ensures W.Mul(W.Sub(p, q), W.Sub(r, s))
         == W.Sub(W.Sub(W.Mul(p, r), W.Mul(p, s)), W.Sub(W.Mul(q, r), W.Mul(q, s)))
  {
    MulLeftLinear(p, q, W.Sub(r, s));
    W.MulAddDistrib(p, r, s);
    W.MulAddDistrib(q, r, s);
  }

  /** The determinant of the integral product is the product of the determinants. */
  lemma {:induction false} DetRaw(x: Mat, y: Mat)
    ensures DetW(Raw(x, y)) == W.Mul(DetW(x), DetW(y))
  {
    var a, b, c, d := x.a, x.b, x.c, x.d;
    var e, f, g, h := y.a, y.b, y.c, y.d;
    var ae, bg, af, bh := W.Mul(a, e), W.Mul(b, g), W.Mul(a, f), W.Mul(b, h);
    var ce, dg, cf, dh := W.Mul(c, e), W.Mul(d, g), W.Mul(c, f), W.Mul(d, h);
    var ad, bc, eh, fg := W.Mul(a, d), W.Mul(b, c), W.Mul(e, h), W.Mul(f, g);
    var pP, qQ := W.Mul(W.Mul(a, c), W.Mul(e, f)), W.Mul(W.Mul(b, d), W.Mul(g, h));
    var rR, sS := W.Mul(ad, eh), W.Mul(bc, fg);
    var tT, uU := W.Mul(ad, fg), W.Mul(bc, eh);
    assert W.Mul(W.Add(ae, bg), W.Add(cf, dh)) == W.Add(W.Add(pP, rR), W.Add(sS, qQ)) by {
      ExpandSum(ae, bg, cf, dh);
      Interchange(a, e, c, f);
      Interchange(a, e, d, h);
      Interchange(b, g, c, f);
      W.MulComm(g, f);
      Interchange(b, g, d, h);
    }
    assert W.Mul(W.Add(af, bh), W.Add(ce, dg)) == W.Add(W.Add(pP, tT), W.Add(uU, qQ)) by {
      ExpandSum(af, bh, ce, dg);
      Interchange(a, f, c, e);
      W.MulComm(f, e);
      Interchange(a, f, d, g);
      Interchange(b, h, c, e);
      W.MulComm(h, e);
      Interchange(b, h, d, g);
      W.MulComm(h, g);
    }
    assert W.Mul(DetW(x), DetW(y)) == W.Sub(W.Sub(rR, tT), W.Sub(uU, sS)) by {
      ExpandDifference(ad, bc, eh, fg);
    }
  }

  /** Scaling every entry by s scales the determinant by s^2. */
  lemma DetTimes(m: Mat, s: ZW)
    ensures DetW(TimesM(m, s)) == W.Mul(DetW(m), W.Mul(s, s))
  {
    Interchange(m.a, s, m.d, s);
    Interchange(m.b, s, m.c, s);
    MulLeftLinear(W.Mul(m.a, m.d), W.Mul(m.b, m.c), W.Mul(s, s));
  }

  /**
   * The determinant of g @ h is det(g) det(h) / 2: the product of the matrices is divided by
   * sqrt(2).
   */
  lemma DetMatMul(g: SU2, h: SU2)
    requires MatMul(g, h).Some?
    ensures W.Mul(DetW(g.m), DetW(h.m)) == W.Scale(DetW(MatMul(g, h).value.m), 2)
  {
    var n := MatMul(g, h).value.m;
    DetRaw(g.m, h.m);
    DetTimes(n, W.Sqrt2);
    W.Sqrt2Squared();
    W.MulFromInt(DetW(n), 2);
  }

  /** For admissible factors: 2 det(g @ h) == det(g) det(h) in Z[sqrt 2]. */
  lemma DetOfProduct(g: SU2, h: SU2)
    requires Admissible(g.m) && Admissible(h.m)
    ensures MatMul(g, h).Some?
    ensures Det(g).Some? && Det(h).Some? && Det(MatMul(g, h).value).Some?
    ensures Z2.Mul(Det(g).value, Det(h).value) == Z2.Scale(Det(MatMul(g, h).value).value, 2)
  {
    MatMulClosed(g, h);
    var n := MatMul(g, h).value;
    DetShapedSome(g);
    DetShapedSome(h);
    DetShapedSome(n);
    DetMatMul(g, h);
    W.EmbedMul(Det(g).value, Det(h).value);
  }

  lemma DetShapedSome(g: SU2)
    requires Shaped(g.m)
    ensures Det(g).Some?
  {
    DetShaped(g.m);
  }

  // ---------------------------------------------------------------------------------
  // scale_down

  /** q (2 + sqrt 2) is a multiple of sqrt(2), and LambdaQuotient recovers q. */
  lemma LambdaMultiple(q: ZW)
    ensures Sqrt2Multiple(W.Mul(q, W.LambdaKliuchnikov))
    ensures LambdaQuotient(W.Mul(q, W.LambdaKliuchnikov)) == q
  {
    MulLambda(q, 1);
    OddShift(0, q.c0 + q.c1 + q.c2);
    OddShift(0, q.c1 + q.c2 + q.c3);
  }

  lemma LambdaQuotientSpec(x: ZW)
    requires Sqrt2Multiple(x)
    ensures W.Mul(LambdaQuotient(x), W.LambdaKliuchnikov) == x
  {
    HalfWExact(x);
    MulLambda(LambdaQuotient(x), 1);
  }

  /**
   * `scale_down()`: every entry divided by 2 + sqrt(2), the gates kept; None when some entry
   * is not divisible (divisibility by 2 + sqrt(2) is Sqrt2Multiple, LambdaDivision).
   */
  function ScaleDown(g: SU2): (r: Option<SU2>)
    ensures r.Some? <==> AllSqrt2Multiples(g.m)
    ensures r.Some? ==> TimesM(r.value.m, W.LambdaKliuchnikov) == g.m && r.value.gates == g.gates
  {
    var m := g.m;
    if AllSqrt2Multiples(m) then
      LambdaQuotientSpec(m.a);
      LambdaQuotientSpec(m.b);
      LambdaQuotientSpec(m.c);
      LambdaQuotientSpec(m.d);
      Some(SU2(Mat(LambdaQuotient(m.a), LambdaQuotient(m.b), LambdaQuotient(m.c), LambdaQuotient(m.d)),
               g.gates))
    else
      None
  }

  /** scale_down undoes `g * LAMBDA_KLIUCHNIKOV`: it succeeds exactly on the matrices that are
      (2 + sqrt 2) times another, and returns that other. */
  lemma ScaleDownTimes(g: SU2)
    ensures ScaleDown(Times(g, W.LambdaKliuchnikov)) == Some(g)
  {
    LambdaMultiple(g.m.a);
    LambdaMultiple(g.m.b);
    LambdaMultiple(g.m.c);
    LambdaMultiple(g.m.d);
  }

  /** A scaled-down admissible matrix has determinant det / (2 + sqrt 2)^2. */
  lemma DetScaleDown(g: SU2)
    requires ScaleDown(g).Some?
    ensures DetW(g.m) == W.Mul(DetW(ScaleDown(g).value.m), W.Mul(W.LambdaKliuchnikov, W.LambdaKliuchnikov))
  {
    DetTimes(ScaleDown(g).value.m, W.LambdaKliuchnikov);
  }

  // ---------------------------------------------------------------------------------
  // The adjoint

  /** `ISqrt2 == SQRT_2 * SU2CliffordT(identity, ())`. */
  function ISqrt2(): SU2 { Times(SU2(Mat(W.One, W.Zero, W.Zero, W.One), Some([])), W.Sqrt2) }

  lemma ISqrt2Entries()
    ensures ISqrt2().m == Mat(W.Sqrt2, W.Zero, W.Zero, W.Sqrt2)
  {
    W.MulOne(W.Sqrt2);
    W.MulComm(W.One, W.Sqrt2);
    W.MulComm(W.Zero, W.Sqrt2);
    ZeroTimes(W.Sqrt2);
  }

  lemma ZeroTimes(x: ZW)
    ensures W.Mul(x, W.Zero) == W.Zero && W.Mul(W.Zero, x) == W.Zero
  {}

  /** g adjoint(g) of [[u, -v*], [v, u*]] is (|u|^2 + |v|^2) times the identity. */
  lemma RawAdjoint(m: Mat)
    requires Shaped(m)
    ensures Raw(m, Adjoint(SU2(m, None)).m) == Mat(DetW(m), W.Zero, W.Zero, DetW(m))
  {
    var u, v := m.a, m.c;
    var cu, cv := W.Conj(u), W.Conj(v);
    assert Adjoint(SU2(m, None)).m == Mat(cu, cv, W.Neg(v), u) by { ConjLaws(v, v); ConjLaws(u, u); }
    var r := Raw(m, Mat(cu, cv, W.Neg(v), u));
    assert r.a == DetW(m) by { MulNeg(W.Neg(cv), v); }
    assert r.b == W.Zero by { MulNeg(cv, u); W.MulComm(u, cv); }
    assert r.c == W.Zero by { MulNeg(cu, v); W.MulComm(v, cu); }
    assert r.d == DetW(m) by { MulNeg(cv, v); W.MulComm(v, cv); W.MulComm(cu, u); }
  }

  /**
   * For a shaped g with det(g) == 2 w: g @ g.adjoint() == ISqrt2 * w, the scaled identity.
   * With w == (2 + sqrt 2)^k this is the adjoint property of k T gates.
   */
  lemma AdjointProduct(g: SU2, w: Z2.ZSqrt2)
    requires Shaped(g.m) && Det(g) == Some(Z2.Scale(w, 2))
    ensures MatMul(g, Adjoint(g)).Some?
    ensures MatMul(g, Adjoint(g)).value.m == Times(ISqrt2(), W.Embed(w)).m
  {
    AdjointProductEntries(g, w);
    TimesISqrt2(W.Embed(w));
    Sqrt2TimesEmbed(w);
  }

  lemma AdjointProductEntries(g: SU2, w: Z2.ZSqrt2)
    requires Shaped(g.m) && DetW(g.m) == W.Embed(Z2.Scale(w, 2))
    ensures MatMul(g, Adjoint(g)).Some?
    ensures var s := W.ZW(2 * w.b, w.a, 0, -w.a); MatMul(g, Adjoint(g)).value.m == Mat(s, W.Zero, W.Zero, s)
  {
    var e := W.Embed(Z2.Scale(w, 2));
    assert Raw(g.m, Adjoint(g).m) == Mat(e, W.Zero, W.Zero, e) by {
      assert Adjoint(g).m == Adjoint(SU2(g.m, None)).m;
      RawAdjoint(g.m);
    }
    HalfScaledIdentity(w);
    var s := W.ZW(2 * w.b, w.a, 0, -w.a);
    MatMulOfHalves(g, Adjoint(g), Mat(s, W.Zero, W.Zero, s));
  }

  lemma HalfScaledIdentity(w: Z2.ZSqrt2)
    ensures var e := W.Embed(Z2.Scale(w, 2)); var s := W.ZW(2 * w.b, w.a, 0, -w.a);
      AllSqrt2Multiples(Mat(e, W.Zero, W.Zero, e)) && HalfM(Mat(e, W.Zero, W.Zero, e)) == Mat(s, W.Zero, W.Zero, s)
  {
    EmbedTwiceHalf(w);
    ZeroMultiple();
  }

  lemma MatMulOfHalves(g: SU2, h: SU2, n: Mat)
    requires AllSqrt2Multiples(Raw(g.m, h.m)) && HalfM(Raw(g.m, h.m)) == n
    ensures MatMul(g, h).Some? && MatMul(g, h).value.m == n
  {
  }

  lemma EmbedTwiceHalf(w: Z2.ZSqrt2)
    ensures Sqrt2Multiple(W.Embed(Z2.Scale(w, 2)))
    ensures HalfW(W.Embed(Z2.Scale(w, 2))) == W.ZW(2 * w.b, w.a, 0, -w.a)
  {
    OddShift(0, -w.a);
  }

  lemma TimesISqrt2(c: ZW)
    ensures Times(ISqrt2(), c).m == Mat(W.Mul(W.Sqrt2, c), W.Zero, W.Zero, W.Mul(W.Sqrt2, c))
  {
    ISqrt2Entries();
    ZeroTimes(c);
  }

  lemma Sqrt2TimesEmbed(w: Z2.ZSqrt2)
    ensures W.Mul(W.Sqrt2, W.Embed(w)) == W.ZW(2 * w.b, w.a, 0, -w.a)
  {
    MulSqrt2(W.Embed(w), 1);
  }

  lemma ZeroMultiple()
    ensures Sqrt2Multiple(W.Zero) && HalfW(W.Zero) == W.Zero
  {}
}
