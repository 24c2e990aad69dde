/**
 * The relative norm solver for Clifford+T of qualtran/rotation_synthesis/relative_norm/clifford_t.py:
 * given r in Z[sqrt 2], find v in Z[w] with v * conj(v) == r (Algorithm 2 of arXiv:2203.10064).
 * The prime factorisation the solver asks of sympy is an input here.
 */
module RelativeNorm {
  import opened Wrappers
  import Z2 = ZSqrt2Ring
  import W = ZOmegaRing
  import PyInt

  // ---------------------------------------------------------------------------------
  // factor_into_generators

  /** The product of etas[i]^e[i], taken from the first generator to the last. */
  function Product(etas: seq<Z2.ZSqrt2>, e: seq<nat>): Z2.ZSqrt2
    requires |e| == |etas|
    decreases |etas|
  {
    if |etas| == 0 then Z2.One
    else Z2.Mul(Product(etas[..|etas| - 1], e[..|e| - 1]), Z2.Pow(etas[|etas| - 1], e[|e| - 1]))
  }

  /** The first k generators pass the assertion `mag > 1`. */
  predicate NormsAbove(etas: seq<Z2.ZSqrt2>, k: nat)
    requires k <= |etas|
  {
    forall i | 0 <= i < k :: Z2.Norm(etas[i]) > 1
  }

  /** No generator among the first k divides u. */
  predicate Maximal(u: Z2.ZSqrt2, etas: seq<Z2.ZSqrt2>, k: nat)
    requires k <= |etas|
  {
    forall i | 0 <= i < k :: etas[i] != Z2.Zero && !Z2.IsDivisibleBy(u, etas[i])
  }

  /**
   * `factor_into_generators(r, etas)`: the remainder u and the exponents e with
   * r == u * prod etas[i]^e[i], each e[i] maximal, so that u is divisible by no eta. Err(i) is
   * the AssertionError raised at the first generator whose norm is not above 1. The source
   * loops forever on r == 0, which every generator divides.
   */
  method FactorIntoGenerators(r: Z2.ZSqrt2, etas: seq<Z2.ZSqrt2>) returns (res: Result<(Z2.ZSqrt2, seq<nat>), nat>)
    requires r != Z2.Zero
    ensures res.Err? <==> exists i | 0 <= i < |etas| :: Z2.Norm(etas[i]) <= 1
    ensures res.Err? ==> res.error < |etas| && Z2.Norm(etas[res.error]) <= 1 && NormsAbove(etas, res.error)
    ensures res.Ok? ==> |res.value.1| == |etas| && Z2.Mul(res.value.0, Product(etas, res.value.1)) == r
    ensures res.Ok? ==> Maximal(res.value.0, etas, |etas|)
    ensures etas == [] ==> res == Ok((r, []))
  {
    var u := r;
    var exponents: seq<nat> := [];
    ProductEmpty(etas, exponents);
    Z2.MulOne(u);
    for k := 0 to |etas|
      invariant |exponents| == k && u != Z2.Zero
      invariant Z2.Mul(u, Product(etas[..k], exponents)) == r
      invariant NormsAbove(etas, k) && Maximal(u, etas, k)
    {
      var eta := etas[k];
      var mag := Z2.Norm(eta);
      if !(mag > 1) {
        return Err(k);
      }
      Z2.NormZero(eta);
      var e: nat := 0;
      Z2.MulOne(u);
      while Z2.IsDivisibleBy(u, eta)
        invariant u != Z2.Zero && Maximal(u, etas, k)
        invariant Z2.Mul(Z2.Mul(u, Z2.Pow(eta, e)), Product(etas[..k], exponents)) == r
        decreases Z2.Norm(u)
      {
        var q := Z2.FloorDiv(u, eta);
        DivisionShrinks(u, eta);
        MaximalKept(u, q, eta, etas, k);
        OneMoreFactor(q, eta, e);
        u := q;
        e := e + 1;
      }
      ProductStep(etas, exponents, k, e);
      Regroup(u, Product(etas[..k], exponents), Z2.Pow(eta, e));
      exponents := exponents + [e];
    }
    assert etas[..|etas|] == etas;
    return Ok((u, exponents));
  }

  lemma ProductEmpty(etas: seq<Z2.ZSqrt2>, e: seq<nat>)
    requires e == []
    ensures Product(etas[..0], e) == Z2.One
  {}

  /** Adding one generator multiplies the product by its power. */
  lemma ProductStep(etas: seq<Z2.ZSqrt2>, e: seq<nat>, k: nat, x: nat)
    requires k < |etas| && |e| == k
    ensures Product(etas[..k + 1], e + [x]) == Z2.Mul(Product(etas[..k], e), Z2.Pow(etas[k], x))
  {
    assert etas[..k + 1][..k] == etas[..k];
    assert (e + [x])[..k] == e;
  }

  lemma Regroup(x: Z2.ZSqrt2, y: Z2.ZSqrt2, z: Z2.ZSqrt2)
    ensures Z2.Mul(Z2.Mul(x, z), y) == Z2.Mul(x, Z2.Mul(y, z))
  {
    Z2.MulAssoc(x, z, y);
    Z2.MulComm(z, y);
  }

  /** Moving one factor eta from the remainder into the exponent keeps the product. */
  lemma OneMoreFactor(q: Z2.ZSqrt2, eta: Z2.ZSqrt2, e: nat)
    ensures Z2.Mul(Z2.Mul(q, eta), Z2.Pow(eta, e)) == Z2.Mul(q, Z2.Pow(eta, e + 1))
  {
    Z2.MulAssoc(q, eta, Z2.Pow(eta, e));
  }

  /** An exact division by an element of norm above 1 leaves a nonzero element of smaller norm. */
  lemma DivisionShrinks(x: Z2.ZSqrt2, y: Z2.ZSqrt2)
    requires x != Z2.Zero && Z2.Norm(y) > 1 && y != Z2.Zero && Z2.IsDivisibleBy(x, y)
    ensures Z2.Mul(Z2.FloorDiv(x, y), y) == x
    ensures Z2.FloorDiv(x, y) != Z2.Zero && Z2.Norm(Z2.FloorDiv(x, y)) < Z2.Norm(x)
  {
    var q := Z2.FloorDiv(x, y);
    Z2.IsDivisibleByDecidesDivides(x, y);
    Z2.NormMultiplicative(q, y);
    assert Z2.Mul(Z2.Zero, y) == Z2.Zero;
    Z2.NormZero(q);
    SmallerFactor(Z2.Norm(q), Z2.Norm(y));
  }

  lemma SmallerFactor(m: nat, n: nat)
    requires m >= 1 && n > 1
    ensures m < m * n
  {}

  /** A divisor of u is divisible by no generator that fails to divide u. */
  lemma MaximalKept(u: Z2.ZSqrt2, q: Z2.ZSqrt2, eta: Z2.ZSqrt2, etas: seq<Z2.ZSqrt2>, k: nat)
    requires k <= |etas| && Maximal(u, etas, k) && Z2.Mul(q, eta) == u
    ensures Maximal(q, etas, k)
  {
    forall i | 0 <= i < k
      ensures !Z2.IsDivisibleBy(q, etas[i])
    {
      NotDivisibleKept(u, q, eta, etas[i]);
    }
  }

  lemma NotDivisibleKept(u: Z2.ZSqrt2, q: Z2.ZSqrt2, eta: Z2.ZSqrt2, g: Z2.ZSqrt2)
    requires g != Z2.Zero && !Z2.IsDivisibleBy(u, g) && Z2.Mul(q, eta) == u
    ensures !Z2.IsDivisibleBy(q, g)
  {
    DivisibleLifts(q, eta, g);
  }

  /** What g divides, g divides times anything. */
  lemma DivisibleLifts(q: Z2.ZSqrt2, eta: Z2.ZSqrt2, g: Z2.ZSqrt2)
    requires g != Z2.Zero
    ensures Z2.IsDivisibleBy(q, g) ==> Z2.IsDivisibleBy(Z2.Mul(q, eta), g)
  {
    Z2.IsDivisibleByDecidesDivides(q, g);
    Z2.IsDivisibleByDecidesDivides(Z2.Mul(q, eta), g);
    if Z2.IsDivisibleBy(q, g) {
      var c :| Z2.Mul(c, g) == q;
      Regroup(c, eta, g);
      Z2.MulAssoc(c, eta, g);
      assert Z2.Mul(Z2.Mul(c, eta), g) == Z2.Mul(q, eta);
    }
  }

  // ---------------------------------------------------------------------------------
  // compute_w

  /** The Pell numbers 0, 1, 2, 5, 12, 29, ...: the sqrt 2 coefficients of (1 + sqrt 2)^n. */
  function Pell(n: nat): nat {
    if n == 0 then 0 else if n == 1 then 1 else 2 * Pell(n - 1) + Pell(n - 2)
  }

  /** `zw.One + zw.SQRT_2` and `-zw.One + zw.SQRT_2`. */
  const OnePlusSqrt2 := W.ZW(1, 1, 0, -1)
  const MinusOnePlusSqrt2 := W.ZW(-1, 1, 0, -1)

  /**
   * What compute_w returns once it knows n, the exponent with Pell(n) == |b|: None for odd n,
   * otherwise (-1 + sqrt 2)^(n/2) when a coefficient of the unit is negative and (1 + sqrt 2)^(n/2)
   * when none is.
   */
  function WOfExponent(unit: Z2.ZSqrt2, n: nat): Option<W.ZW> {
    if n % 2 == 1 then None
    else if unit.a < 0 || unit.b < 0 then Some(W.Pow(MinusOnePlusSqrt2, n / 2))
    else Some(W.Pow(OnePlusSqrt2, n / 2))
  }

  /**
   * `compute_w(unit)`: the Pell recurrence finds the exponent n of 1 + sqrt 2 with
   * Pell(n) == |b|, and the result is WOfExponent(unit, n). Err(|b|) is the AssertionError
   * raised when |b| is no Pell number.
   */
  method ComputeW(unit: Z2.ZSqrt2) returns (r: Result<Option<W.ZW>, nat>)
    ensures r.Err? <==> forall n: nat :: Pell(n) != PyInt.Abs(unit.b)
    ensures forall n: nat | Pell(n) == PyInt.Abs(unit.b) :: r == Ok(WOfExponent(unit, n))
  {
    var sign := 1 - 2 * (if unit.a < 0 || unit.b < 0 then 1 else 0);
    var target := PyInt.Abs(unit.b);
    var n: nat;
    if target <= 1 {
      n := target;
      assert Pell(0) == 0 && Pell(1) == 1;
    } else {
      var a: int, b: int := 0, 1;
      n := 1;
      while b < target
        invariant n >= 1 && a == Pell(n - 1) && b == Pell(n) && b >= 1 && Pell(n - 1) < target
        decreases target - b
      {
        a, b := b, 2 * b + a;
        n := n + 1;
      }
      if b != target {
        PellGap(n, target);
        return Err(target);
      }
    }
    assert Pell(n) == target;
    PellUnique(n);
    if n % 2 == 1 {
      return Ok(None);
    }
    var half := n / 2;
    if sign == -1 {
      var p := W.Power(MinusOnePlusSqrt2, half);
      return Ok(Some(p.value));
    }
    var p := W.Power(OnePlusSqrt2, half);
    return Ok(Some(p.value));
  }

  /** The Pell numbers increase strictly. */
  lemma {:induction false} PellIncreasing(i: nat, j: nat)
    requires i < j
    ensures Pell(i) < Pell(j)
    decreases j
  {
    if j == i + 1 {
      PellPositive(i);
    } else {
      PellIncreasing(i, j - 1);
      PellPositive(j - 1);
    }
  }

  lemma PellPositive(n: nat)
    ensures Pell(n + 1) > Pell(n) && Pell(n + 1) >= 1
  {
    if n >= 1 {
      PellAtLeastOne(n);
    }
  }

  lemma {:induction false} PellAtLeastOne(n: nat)
    requires n >= 1
    ensures Pell(n) >= 1
  {
    if n > 1 {
      PellAtLeastOne(n - 1);
    }
  }

  /** No Pell number lies strictly between two consecutive ones. */
  lemma PellGap(n: nat, t: nat)
    requires n >= 1 && Pell(n - 1) < t < Pell(n)
    ensures forall m: nat :: Pell(m) != t
  {
    forall m: nat
      ensures Pell(m) != t
    {
      if m < n - 1 {
        PellIncreasing(m, n - 1);
      } else if m > n {
        PellIncreasing(n, m);
      }
    }
  }

  /** n is the only exponent with the Pell number Pell(n). */
  lemma PellUnique(n: nat)
    ensures forall m: nat | Pell(m) == Pell(n) :: m == n
  {
    forall m: nat | Pell(m) == Pell(n)
      ensures m == n
    {
      if m < n {
        PellIncreasing(m, n);
      } else if m > n {
        PellIncreasing(n, m);
      }
    }
  }

  // ---------------------------------------------------------------------------------
  // Powers of 1 + sqrt 2

  /** lambda^m for any integer m, with lambda == 1 + sqrt 2 and lambda^-1 == -1 + sqrt 2. */
  function LambdaPower(m: int): Z2.ZSqrt2 {
    if m >= 0 then Z2.Pow(Z2.Lambda, m) else Z2.Pow(Z2.LambdaInv, -m)
  }

  /** x * lambda, written out. */
  function TimesLambda(x: Z2.ZSqrt2): Z2.ZSqrt2 { Z2.ZSqrt2(x.a + 2 * x.b, x.a + x.b) }

  /** x * (-1 + sqrt 2), written out. */
  function TimesLambdaInv(x: Z2.ZSqrt2): Z2.ZSqrt2 { Z2.ZSqrt2(2 * x.b - x.a, x.a - x.b) }

  /** lambda^n by repeated TimesLambda. */
  function LambdaSeq(n: nat): Z2.ZSqrt2 { if n == 0 then Z2.One else TimesLambda(LambdaSeq(n - 1)) }

  /** (-1 + sqrt 2)^n by repeated TimesLambdaInv. */
  function LambdaInvSeq(n: nat): Z2.ZSqrt2 { if n == 0 then Z2.One else TimesLambdaInv(LambdaInvSeq(n - 1)) }

  lemma TimesLambdaIsMul(x: Z2.ZSqrt2)
    ensures Z2.Mul(Z2.Lambda, x) == TimesLambda(x) && Z2.Mul(Z2.LambdaInv, x) == TimesLambdaInv(x)
  {}

  lemma {:induction false} LambdaSeqIsPow(n: nat)
    ensures LambdaSeq(n) == Z2.Pow(Z2.Lambda, n) && LambdaInvSeq(n) == Z2.Pow(Z2.LambdaInv, n)
  {
    if n > 0 {
      LambdaSeqIsPow(n - 1);
      TimesLambdaIsMul(LambdaSeq(n - 1));
      TimesLambdaIsMul(LambdaInvSeq(n - 1));
    }
  }

  /** lambda^n == A + Pell(n) sqrt 2 with A >= 1. */
  lemma {:induction false} LambdaPell(n: nat)
    ensures LambdaSeq(n).b == Pell(n) && LambdaSeq(n).a >= 1
  {
    if n >= 2 {
      LambdaPell(n - 1);
      LambdaPell(n - 2);
    }
  }

  lemma SignedNormTimesLambda(x: Z2.ZSqrt2)
    ensures Z2.SignedNorm(TimesLambda(x)) == -Z2.SignedNorm(x)
  {
    var a, b := x.a, x.b;
    assert (a + 2 * b) * (a + 2 * b) == a * a + 4 * (a * b) + 4 * (b * b);
    assert (a + b) * (a + b) == a * a + 2 * (a * b) + b * b;
  }

  lemma FlipSign(s: int, t: int, n: nat)
    requires n >= 1 && t == -s && s == (if (n - 1) % 2 == 0 then 1 else -1)
    ensures t == if n % 2 == 0 then 1 else -1
  {}

  /** lambda^n has signed norm (-1)^n. */
  lemma {:induction false} LambdaSignedNorm(n: nat)
    ensures Z2.SignedNorm(LambdaSeq(n)) == if n % 2 == 0 then 1 else -1
  {
    if n > 0 {
      var x := LambdaSeq(n - 1);
      LambdaSignedNorm(n - 1);
      SignedNormTimesLambda(x);
      FlipSign(Z2.SignedNorm(x), Z2.SignedNorm(LambdaSeq(n)), n);
    }
  }

  /** (-1 + sqrt 2)^n == conj(lambda^n) for even n ... */
  lemma LambdaInvConjEven(n: nat)
    requires n % 2 == 0
    ensures LambdaInvSeq(n) == Z2.Conj(LambdaSeq(n))
  {
    var k := n / 2;
    LambdaInvConjPair(k);
    assert n == 2 * k;
  }

  /** ... and == -conj(lambda^n) for odd n. */
  lemma LambdaInvConjOdd(n: nat)
    requires n % 2 == 1
    ensures LambdaInvSeq(n) == Z2.Neg(Z2.Conj(LambdaSeq(n)))
  {
    var k := n / 2;
    LambdaInvConjPair(k);
    assert n == 2 * k + 1;
  }

  /** The same for the exponents 2k and 2k + 1, by induction on k. */
  lemma {:induction false} LambdaInvConjPair(k: nat)
    ensures LambdaInvSeq(2 * k) == Z2.Conj(LambdaSeq(2 * k))
    ensures LambdaInvSeq(2 * k + 1) == Z2.Neg(Z2.Conj(LambdaSeq(2 * k + 1)))
  {
    var n := 2 * k;
    if k > 0 {
      LambdaInvConjPair(k - 1);
      var j := 2 * (k - 1) + 1;
      LambdaStep(j);
      InvStepOdd(LambdaSeq(j));
      assert j + 1 == n;
    }
    LambdaStep(n);
    InvStepEven(LambdaSeq(n));
  }

  lemma LambdaStep(j: nat)
    ensures LambdaSeq(j + 1) == TimesLambda(LambdaSeq(j))
    ensures LambdaInvSeq(j + 1) == TimesLambdaInv(LambdaInvSeq(j))
  {}

  lemma InvStepEven(x: Z2.ZSqrt2)
    ensures TimesLambdaInv(Z2.Conj(x)) == Z2.Neg(Z2.Conj(TimesLambda(x)))
  {}

  lemma InvStepOdd(x: Z2.ZSqrt2)
    ensures TimesLambdaInv(Z2.Neg(Z2.Conj(x))) == Z2.Conj(TimesLambda(x))
  {}

  /** Z[sqrt 2] sits in Z[w] as the real elements: conj fixes them and powers agree. */
  lemma {:induction false} EmbedPow(x: Z2.ZSqrt2, k: nat)
    ensures W.Pow(W.Embed(x), k) == W.Embed(Z2.Pow(x, k))
  {
    if k > 0 {
      EmbedPow(x, k - 1);
      W.EmbedMul(x, Z2.Pow(x, k - 1));
    }
  }

  lemma AbsSquaredEmbed(z: Z2.ZSqrt2)
    ensures W.AbsSquared(W.Embed(z)) == Z2.Mul(z, z)
  {
    var r := W.AbsSquared(W.Embed(z));
    assert W.Conj(W.Embed(z)) == W.Embed(z);
    W.EmbedMul(z, z);
    assert W.Embed(r) == W.Embed(Z2.Mul(z, z));
  }

  /** The squared modulus of x^k, x real, is x^2k. */
  lemma AbsSquaredRealPow(x: Z2.ZSqrt2, k: nat)
    ensures W.AbsSquared(W.Pow(W.Embed(x), k)) == Z2.Pow(x, 2 * k)
  {
    EmbedPow(x, k);
    AbsSquaredEmbed(Z2.Pow(x, k));
    Z2.PowAdd(x, k, k);
  }

  /**
   * compute_w on the units lambda^m: the exponent it finds is |m|, it answers exactly for
   * even m, and then w * conj(w) equals the unit.
   */
  lemma ComputeWOnUnits(m: int)
    ensures Pell(PyInt.Abs(m)) == PyInt.Abs(LambdaPower(m).b)
    ensures WOfExponent(LambdaPower(m), PyInt.Abs(m)).Some? <==> m % 2 == 0
    ensures WOfExponent(LambdaPower(m), PyInt.Abs(m)).Some? ==>
      W.AbsSquared(WOfExponent(LambdaPower(m), PyInt.Abs(m)).value) == LambdaPower(m)
  {
    if m >= 0 {
      ComputeWOnPositive(m);
    } else {
      ComputeWOnNegative(m);
    }
  }

  lemma ComputeWOnPositive(m: int)
    requires m >= 0
    ensures Pell(PyInt.Abs(m)) == PyInt.Abs(LambdaPower(m).b)
    ensures WOfExponent(LambdaPower(m), PyInt.Abs(m)).Some? <==> m % 2 == 0
    ensures WOfExponent(LambdaPower(m), PyInt.Abs(m)).Some? ==>
      W.AbsSquared(WOfExponent(LambdaPower(m), PyInt.Abs(m)).value) == LambdaPower(m)
  {
    var n := PyInt.Abs(m);
    LambdaSeqIsPow(n);
    LambdaPell(n);
    assert OnePlusSqrt2 == W.Embed(Z2.Lambda);
    if n % 2 == 0 {
      AbsSquaredRealPow(Z2.Lambda, n / 2);
    }
  }

  lemma ComputeWOnNegative(m: int)
    requires m < 0
    ensures Pell(PyInt.Abs(m)) == PyInt.Abs(LambdaPower(m).b)
    ensures WOfExponent(LambdaPower(m), PyInt.Abs(m)).Some? <==> m % 2 == 0
    ensures WOfExponent(LambdaPower(m), PyInt.Abs(m)).Some? ==>
      W.AbsSquared(WOfExponent(LambdaPower(m), PyInt.Abs(m)).value) == LambdaPower(m)
  {
    var n := PyInt.Abs(m);
    assert n == -m;
    LambdaSeqIsPow(n);
    LambdaPell(n);
    assert LambdaPower(m) == LambdaInvSeq(n);
    if m % 2 == 0 {
      assert n % 2 == 0;
      LambdaInvConjEven(n);
      NegativeEven(n);
    } else {
      assert n % 2 == 1;
      LambdaInvConjOdd(n);
    }
  }

  /** On lambda^-n, n even, compute_w answers (-1 + sqrt 2)^(n/2), whose squared modulus is lambda^-n. */
  lemma NegativeEven(n: nat)
    requires n % 2 == 0 && n >= 1
    ensures LambdaInvSeq(n).b < 0
    ensures W.AbsSquared(W.Pow(MinusOnePlusSqrt2, n / 2)) == LambdaInvSeq(n)
  {
    LambdaSeqIsPow(n);
    LambdaPell(n);
    LambdaInvConjEven(n);
    PellIncreasing(0, n);
    var k := n / 2;
    assert MinusOnePlusSqrt2 == W.Embed(Z2.LambdaInv);
    AbsSquaredRealPow(Z2.LambdaInv, k);
    assert 2 * k == n;
  }

  // ---------------------------------------------------------------------------------
  // compute_w on units with a negative rational part

  /**
   * As written, compute_w answers the unit -1 with 1 (|b| == 0 == Pell(0), n == 0 is even),
   * although no v of Z[w] has v * conj(v) == -1: the rational part of v * conj(v) is a sum of
   * squares.
   */
  lemma ComputeWMinusOne()
    ensures Pell(0) == PyInt.Abs(Z2.ZSqrt2(-1, 0).b)
    ensures WOfExponent(Z2.ZSqrt2(-1, 0), 0) == Some(W.One)
    ensures forall v: W.ZW :: W.AbsSquared(v) != Z2.ZSqrt2(-1, 0)
  {
    forall v: W.ZW
      ensures W.AbsSquared(v) != Z2.ZSqrt2(-1, 0)
    {
      SquaresNonnegative(v);
    }
  }

  lemma SquaresNonnegative(v: W.ZW)
    ensures W.AbsSquared(v).a >= 0
  {
    assert v.c0 * v.c0 >= 0 && v.c1 * v.c1 >= 0 && v.c2 * v.c2 >= 0 && v.c3 * v.c3 >= 0;
  }

  /**
   * compute_w with the sign of the unit taken into account: a unit a + b sqrt 2 with a < 0 is
   * negative at one of its two real embeddings, so it is no v * conj(v) and gets None.
   */
  function WOfExponentChecked(unit: Z2.ZSqrt2, n: nat): Option<W.ZW> {
    if unit.a < 0 then None else WOfExponent(unit, n)
  }

  /** `compute_w(unit)` with the check that the unit is positive; see WOfExponentChecked. */
  method ComputeWChecked(unit: Z2.ZSqrt2) returns (r: Result<Option<W.ZW>, nat>)
    ensures r.Err? <==> forall n: nat :: Pell(n) != PyInt.Abs(unit.b)
    ensures forall n: nat | Pell(n) == PyInt.Abs(unit.b) :: r == Ok(WOfExponentChecked(unit, n))
  {
    r := ComputeW(unit);
    if r.Ok? && unit.a < 0 {
      r := Ok(None);
    }
  }

  /** Squaring is monotone on the naturals. */
  lemma SquareMonotone(x: int, y: int)
    requires 0 <= x <= y
    ensures x * x <= y * y
  {
    assert x * x <= x * y;
    assert x * y <= y * y;
  }

  lemma SquareNext(x: int)
    ensures (x + 1) * (x + 1) == x * x + 2 * x + 1
    ensures (x + 2) * (x + 2) == x * x + 4 * x + 4
  {}

  /** No two squares of naturals differ by 2. */
  lemma SquaresApartByTwo(a: int, c: int)
    requires a >= 0 && c >= 0
    ensures c * c != a * a + 2
  {
    SquareNext(a);
    if c <= a {
      SquareMonotone(c, a);
    } else if c >= a + 2 {
      SquareMonotone(a + 2, c);
    }
  }

  lemma EqualSquares(a: int, c: int)
    requires a >= 0 && c >= 0 && a * a == c * c
    ensures a == c
  {
    SquareMonotone(a, a + 1);
    if a < c {
      SquareMonotone(a + 1, c);
      SquareNext(a);
    }
    if c < a {
      SquareMonotone(c + 1, a);
      SquareNext(c);
    }
  }

  lemma AbsSquare(b: int)
    ensures PyInt.Abs(b) * PyInt.Abs(b) == b * b
  {}

  /** Two units a + b sqrt 2 and A + P sqrt 2, the second of norm +1, with a, A >= 0 and b^2 == P^2. */
  lemma SameRationalPart(a: int, b: int, c: int, p: int)
    requires a >= 0 && c >= 0 && b * b == p * p
    requires c * c - 2 * (p * p) == 1
    requires a * a - 2 * (b * b) == 1 || a * a - 2 * (b * b) == -1
    ensures a == c
  {
    assert a * a == c * c || c * c == a * a + 2;
    SquaresApartByTwo(a, c);
    EqualSquares(a, c);
  }

  /** A unit whose |b| is Pell(n) for an even n and whose a is not negative is lambda^n or its conjugate. */
  lemma UnitShape(unit: Z2.ZSqrt2, n: nat)
    requires Z2.Norm(unit) == 1 && Pell(n) == PyInt.Abs(unit.b) && n % 2 == 0 && unit.a >= 0
    ensures unit.a == LambdaSeq(n).a
    ensures unit.b == LambdaSeq(n).b || unit.b == -LambdaSeq(n).b
  {
    var l := LambdaSeq(n);
    LambdaPell(n);
    LambdaSignedNorm(n);
    AbsSquare(unit.b);
    SameRationalPart(unit.a, unit.b, l.a, l.b);
  }

  /**
   * The checked answer is right: for a unit (norm 1) and the exponent n compute_w finds, a
   * returned w has w * conj(w) == unit.
   */
  lemma WOfExponentCheckedSound(unit: Z2.ZSqrt2, n: nat)
    requires Z2.Norm(unit) == 1 && Pell(n) == PyInt.Abs(unit.b)
    ensures WOfExponentChecked(unit, n).Some? ==> W.AbsSquared(WOfExponentChecked(unit, n).value) == unit
  {
    if WOfExponentChecked(unit, n).Some? {
      UnitShape(unit, n);
      LambdaSeqIsPow(n);
      LambdaPell(n);
      assert OnePlusSqrt2 == W.Embed(Z2.Lambda);
      assert MinusOnePlusSqrt2 == W.Embed(Z2.LambdaInv);
      if unit.b >= 0 {
        assert unit == LambdaSeq(n);
        AbsSquaredRealPow(Z2.Lambda, n / 2);
      } else {
        LambdaInvConjEven(n);
        assert unit == LambdaInvSeq(n);
        AbsSquaredRealPow(Z2.LambdaInv, n / 2);
      }
    }
  }

  /** On the units lambda^m the check changes nothing. */
  lemma CheckedOnUnits(m: int)
    ensures WOfExponentChecked(LambdaPower(m), PyInt.Abs(m)) == WOfExponent(LambdaPower(m), PyInt.Abs(m))
  {
    var n := PyInt.Abs(m);
    LambdaSeqIsPow(n);
    LambdaPell(n);
    if m < 0 && n % 2 == 0 {
      LambdaInvConjEven(n);
    }
  }
}
