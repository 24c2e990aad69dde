/**
 * The ring Z[sqrt 2] of numbers a + b*sqrt(2) with integer a and b, as used by the
 * rotation-synthesis code: ring operations, the sqrt(2)-conjugate, the norm, Euclidean
 * division, the integer-only order and the Euclidean gcd.
 */
module ZSqrt2Ring {
  import opened Wrappers
  import PyInt

  datatype ZSqrt2 = ZSqrt2(a: int, b: int)

  const Zero := ZSqrt2(0, 0)
  const One := ZSqrt2(1, 0)
  const Sqrt2 := ZSqrt2(0, 1)
  const Lambda := ZSqrt2(1, 1)
  const LambdaInv := ZSqrt2(-1, 1)
  const LambdaConj := ZSqrt2(1, -1)
  const LambdaKliuchnikov := ZSqrt2(2, 1)
  const LambdaKliuchnikovConj := ZSqrt2(2, -1)

  /** An integer k seen as the ring element k + 0*sqrt(2). */
  function FromInt(k: int): ZSqrt2 { ZSqrt2(k, 0) }

  function Add(x: ZSqrt2, y: ZSqrt2): ZSqrt2 { ZSqrt2(x.a + y.a, x.b + y.b) }

  function Sub(x: ZSqrt2, y: ZSqrt2): ZSqrt2 { ZSqrt2(x.a - y.a, x.b - y.b) }

  function Neg(x: ZSqrt2): ZSqrt2 { ZSqrt2(-x.a, -x.b) }

  function Mul(x: ZSqrt2, y: ZSqrt2): ZSqrt2 {
    ZSqrt2(x.a * y.a + 2 * x.b * y.b, x.a * y.b + x.b * y.a)
  }

  /** Multiplication by a plain integer (the `int` branch of `__mul__`). */
  function Scale(x: ZSqrt2, k: int): ZSqrt2 {
    ZSqrt2(x.a * k, x.b * k)
  }

  /** Scaling by k is multiplication by the embedded integer k. */
  lemma ScaleIsMul(x: ZSqrt2, k: int)
    ensures Scale(x, k) == Mul(x, FromInt(k))
  {}

  /** The sqrt(2)-conjugate a - b*sqrt(2). */
  function Conj(x: ZSqrt2): ZSqrt2 { ZSqrt2(x.a, -x.b) }

  /** a^2 - 2b^2, the integer part of x * conj(x); it may be negative. */
  function SignedNorm(x: ZSqrt2): int { x.a * x.a - 2 * (x.b * x.b) }

  /** The norm |a^2 - 2b^2|. */
  function Norm(x: ZSqrt2): nat { PyInt.Abs(SignedNorm(x)) }

  /** The value a + b*s of x for a real s standing for sqrt(2). */
  function Value(x: ZSqrt2, s: real): real { x.a as real + s * x.b as real }

  // ---------------------------------------------------------------------------------
  // Ring laws

  lemma MulComm(x: ZSqrt2, y: ZSqrt2)
    ensures Mul(x, y) == Mul(y, x)
  {}

  lemma MulAssoc(x: ZSqrt2, y: ZSqrt2, z: ZSqrt2)
    ensures Mul(Mul(x, y), z) == Mul(x, Mul(y, z))
  {
    assert Mul(Mul(x, y), z).a == Mul(x, Mul(y, z)).a by {
      calc {
        Mul(Mul(x, y), z).a;
        (x.a * y.a + 2 * x.b * y.b) * z.a + 2 * (x.a * y.b + x.b * y.a) * z.b;
        x.a * (y.a * z.a + 2 * y.b * z.b) + 2 * x.b * (y.a * z.b + y.b * z.a);
      }
    }
    assert Mul(Mul(x, y), z).b == Mul(x, Mul(y, z)).b by {
      calc {
        Mul(Mul(x, y), z).b;
        (x.a * y.a + 2 * x.b * y.b) * z.b + (x.a * y.b + x.b * y.a) * z.a;
        x.a * (y.a * z.b + y.b * z.a) + x.b * (y.a * z.a + 2 * y.b * z.b);
      }
    }
  }

  lemma MulAddDistrib(x: ZSqrt2, y: ZSqrt2, z: ZSqrt2)
    ensures Mul(x, Add(y, z)) == Add(Mul(x, y), Mul(x, z))
    ensures Mul(x, Sub(y, z)) == Sub(Mul(x, y), Mul(x, z))
  {
    assert x.a * (y.a + z.a) == x.a * y.a + x.a * z.a;
    assert x.b * (y.b + z.b) == x.b * y.b + x.b * z.b;
    assert x.a * (y.b + z.b) == x.a * y.b + x.a * z.b;
    assert x.b * (y.a + z.a) == x.b * y.a + x.b * z.a;
    assert x.a * (y.a - z.a) == x.a * y.a - x.a * z.a;
    assert x.b * (y.b - z.b) == x.b * y.b - x.b * z.b;
    assert x.a * (y.b - z.b) == x.a * y.b - x.a * z.b;
    assert x.b * (y.a - z.a) == x.b * y.a - x.b * z.a;
  }

  lemma MulOne(x: ZSqrt2)
    ensures Mul(x, One) == x && Mul(One, x) == x
  {}

  /** Multiplication agrees with multiplying the real values, for any s with s*s == 2. */
  lemma MulValue(x: ZSqrt2, y: ZSqrt2, s: real)
    requires s * s == 2.0
    ensures Value(Mul(x, y), s) == Value(x, s) * Value(y, s)
  {
    var xa, xb, ya, yb := x.a as real, x.b as real, y.a as real, y.b as real;
    calc {
      Value(x, s) * Value(y, s);
      (xa + s * xb) * (ya + s * yb);
      xa * ya + s * s * xb * yb + s * (xa * yb + xb * ya);
      xa * ya + 2.0 * xb * yb + s * (xa * yb + xb * ya);
      Value(Mul(x, y), s);
    }
  }

  lemma AddValue(x: ZSqrt2, y: ZSqrt2, s: real)
    ensures Value(Add(x, y), s) == Value(x, s) + Value(y, s)
    ensures Value(Sub(x, y), s) == Value(x, s) - Value(y, s)
  {}

  /** conj is an involution and x * conj(x) is the integer a^2 - 2b^2. */
  lemma ConjProperties(x: ZSqrt2)
    ensures Conj(Conj(x)) == x
    ensures Mul(x, Conj(x)) == FromInt(SignedNorm(x))
    ensures PyInt.Abs(Mul(x, Conj(x)).a) == Norm(x)
    ensures Norm(Conj(x)) == Norm(x)
  {}

  /** The value of the conjugate is a - b*s. */
  lemma ConjValue(x: ZSqrt2, s: real)
    ensures Value(Conj(x), s) == x.a as real - s * x.b as real
  {}

  lemma SignedNormMultiplicative(x: ZSqrt2, y: ZSqrt2)
    ensures SignedNorm(Mul(x, y)) == SignedNorm(x) * SignedNorm(y)
  {
    var p, q := x.a * y.a + 2 * x.b * y.b, x.a * y.b + x.b * y.a;
    calc {
      SignedNorm(Mul(x, y));
      p * p - 2 * q * q;
      (x.a * x.a - 2 * x.b * x.b) * (y.a * y.a - 2 * y.b * y.b);
    }
  }

  lemma NormMultiplicative(x: ZSqrt2, y: ZSqrt2)
    ensures Norm(Mul(x, y)) == Norm(x) * Norm(y)
  {
    SignedNormMultiplicative(x, y);
    AbsMul(SignedNorm(x), SignedNorm(y));
  }

  lemma AbsMul(m: int, n: int)
    ensures PyInt.Abs(m * n) == PyInt.Abs(m) * PyInt.Abs(n)
  {
    if m < 0 && n < 0 {
      assert m * n == (-m) * (-n);
    } else if m < 0 {
      assert m * n == -((-m) * n);
    } else if n < 0 {
      assert m * n == -(m * (-n));
    }
  }

  /** sqrt(2) is irrational: a^2 == 2b^2 only for a == b == 0. */
  lemma SignedNormZero(x: ZSqrt2)
    requires SignedNorm(x) == 0
    ensures x == Zero
  {
    NoSquareTwiceSquare(x.a, x.b);
  }

  lemma {:induction false} NoSquareTwiceSquare(a: int, b: int)
    requires a * a == 2 * (b * b)
    ensures a == 0 && b == 0
    decreases PyInt.Abs(a)
  {
    if a != 0 {
      var c := HalfOfEvenSquare(a, b * b);
      assert 4 * (c * c) == 2 * (b * b);
      var d := HalfOfEvenSquare(b, c * c);
      assert 4 * (d * d) == 2 * (c * c);
      NoSquareTwiceSquare(c, d);
      assert false;
    } else {
      assert b * b == 0;
    }
  }

  /** If a^2 is even then a == 2c, with |c| < |a| when a != 0. */
  lemma HalfOfEvenSquare(a: int, m: int) returns (c: int)
    requires a * a == 2 * m
    ensures a == 2 * c && a * a == 4 * (c * c)
    ensures a != 0 ==> PyInt.Abs(c) < PyInt.Abs(a)
  {
    c := a / 2;
    var r := a % 2;
    assert a == 2 * c + r;
    var t := 2 * (c * c) + 2 * (c * r);
    assert a * a == 2 * t + r * r by { SquareOfSum(c, r); }
    if r == 1 {
      assert false;
    }
    assert a * a == 4 * (c * c) by { SquareOfSum(c, 0); }
  }

  lemma SquareOfSum(c: int, r: int)
    ensures (2 * c + r) * (2 * c + r) == 4 * (c * c) + 4 * (c * r) + r * r
  {}

  lemma NormZero(x: ZSqrt2)
    ensures Norm(x) == 0 <==> x == Zero
  {
    if Norm(x) == 0 { SignedNormZero(x); }
  }

  // ---------------------------------------------------------------------------------
  // Division

  /** `x // y`: x * conj(y), each coordinate floor-divided by the signed norm of y. */
  function FloorDiv(x: ZSqrt2, y: ZSqrt2): ZSqrt2
    requires y != Zero
  {
    NormZero(y);
    var res := Mul(x, Conj(y));
    ZSqrt2(PyInt.FloorDiv(res.a, SignedNorm(y)), PyInt.FloorDiv(res.b, SignedNorm(y)))
  }

  /** `x.is_divisible_by(y)`: both coordinates of x * conj(y) are multiples of Norm(y). */
  function IsDivisibleBy(x: ZSqrt2, y: ZSqrt2): bool
    requires y != Zero
  {
    NormZero(y);
    var res := Mul(x, Conj(y));
    res.a % Norm(y) == 0 && res.b % Norm(y) == 0
  }

  /** g divides x in the ring. */
  ghost predicate Divides(g: ZSqrt2, x: ZSqrt2) {
    exists q :: Mul(q, g) == x
  }

  /** The division test decides ring divisibility, and then `//` gives the exact quotient. */
  lemma IsDivisibleByDecidesDivides(x: ZSqrt2, y: ZSqrt2)
    requires y != Zero
    ensures IsDivisibleBy(x, y) <==> Divides(y, x)
    ensures IsDivisibleBy(x, y) ==> Mul(FloorDiv(x, y), y) == x
  {
    if IsDivisibleBy(x, y) {
      FloorDivExact(x, y);
    }
    if Divides(y, x) {
      var q :| Mul(q, y) == x;
      MultipleIsDivisible(q, y);
    }
  }

  /** x * conj(y) * y == x * (a^2 - 2b^2) for y = a + b*sqrt(2). */
  lemma TimesConjTimes(x: ZSqrt2, y: ZSqrt2)
    ensures Mul(Mul(x, Conj(y)), y) == Scale(x, SignedNorm(y))
    ensures Mul(Mul(x, y), Conj(y)) == Scale(x, SignedNorm(y))
  {
    ConjProperties(y);
    MulAssoc(x, Conj(y), y);
    MulAssoc(x, y, Conj(y));
    MulComm(Conj(y), y);
  }

  lemma FloorDivExact(x: ZSqrt2, y: ZSqrt2)
    requires y != Zero && IsDivisibleBy(x, y)
    ensures Mul(FloorDiv(x, y), y) == x
  {
    NormZero(y);
    var n := SignedNorm(y);
    var res := Mul(x, Conj(y));
    var q := FloorDiv(x, y);
    ExactIntDiv(res.a, n);
    ExactIntDiv(res.b, n);
    assert res == Scale(q, n);
    TimesConjTimes(x, y);
    assert Mul(Scale(q, n), y) == Scale(Mul(q, y), n) by {
      MulAssoc(q, FromInt(n), y);
      MulAssoc(q, y, FromInt(n));
      MulComm(FromInt(n), y);
    }
    ScaleCancel(Mul(q, y), x, n);
  }

  lemma MultipleIsDivisible(q: ZSqrt2, y: ZSqrt2)
    requires y != Zero
    ensures IsDivisibleBy(Mul(q, y), y)
  {
    NormZero(y);
    var n := SignedNorm(y);
    TimesConjTimes(q, y);
    MultipleMod(q.a, n);
    MultipleMod(q.b, n);
  }

  lemma ExactIntDiv(p: int, n: int)
    requires n != 0 && p % PyInt.Abs(n) == 0
    ensures p == PyInt.FloorDiv(p, n) * n
  {
    var m := PyInt.Abs(n);
    var k := p / m;
    assert p == k * m;
    if n < 0 {
      assert -p == (-k) * m;
      DivUnique(-p, m, -k);
      assert PyInt.FloorDiv(p, n) == -k;
      assert (-k) * n == k * m;
    }
  }

  lemma MultipleMod(k: int, n: int)
    requires n != 0
    ensures (k * n) % PyInt.Abs(n) == 0
  {
    if n < 0 {
      assert k * n == (-k) * (-n);
      DivUnique(k * n, -n, -k);
    } else {
      DivUnique(k * n, n, k);
    }
  }

  /** Division by a positive m is exact and unique on multiples of m. */
  lemma DivUnique(p: int, m: int, k: int)
    requires m > 0 && p == k * m
    ensures p / m == k && p % m == 0
  {
    var q, r := p / m, p % m;
    assert p == q * m + r;
    var d := q - k;
    assert d * m == -r by { assert d * m == q * m - k * m; }
    MulSign(d, m);
  }

  /** A non-zero multiple of a positive m is at least m in size. */
  lemma MulSign(d: int, m: int)
    requires m > 0
    ensures d >= 1 ==> d * m >= m
    ensures d <= -1 ==> d * m <= -m
  {
    if d >= 1 {
      assert d * m == (d - 1) * m + m;
    } else if d <= -1 {
      assert d * m == (d + 1) * m - m;
    }
  }

  lemma ScaleCancel(x: ZSqrt2, y: ZSqrt2, n: int)
    requires n != 0 && Scale(x, n) == Scale(y, n)
    ensures x == y
  {
    assert (x.a - y.a) * n == 0;
    assert (x.b - y.b) * n == 0;
  }

  /**
   * `divide_by_sqrt2`: None (ValueError) when a is odd, otherwise b + (a/2)*sqrt(2),
   * which times sqrt(2) gives back x.
   */
  function DivideBySqrt2(x: ZSqrt2): (r: Option<ZSqrt2>)
    ensures r.Some? <==> x.a % 2 == 0
    ensures r.Some? ==> Mul(r.value, Sqrt2) == x
  {
    if x.a % 2 == 1 then None else Some(ZSqrt2(x.b, x.a / 2))
  }

  // ---------------------------------------------------------------------------------
  // Order

  /** `x < y` decided with integer operations only. */
  function Lt(x: ZSqrt2, y: ZSqrt2): bool {
    if x.b == y.b then x.a < y.a
    else
      var da := x.a - y.a;
      var db := y.b - x.b;
      if db < 0 then da < 0 && da * da > 2 * db * db
      else da < 0 || da * da < 2 * db * db
  }

  function Le(x: ZSqrt2, y: ZSqrt2): bool { x == y || Lt(x, y) }

  function Gt(x: ZSqrt2, y: ZSqrt2): bool { Lt(y, x) }

  function Ge(x: ZSqrt2, y: ZSqrt2): bool { x == y || Gt(x, y) }

  lemma SquareMonotone(u: real, v: real)
    requires 0.0 <= u && 0.0 <= v
    ensures u < v <==> u * u < v * v
  {
    var uu, uv, vv := u * u, u * v, v * v;
    if u < v {
      assert uu <= uv;
      assert uv < vv;
    } else {
      assert vv <= uv;
      assert uv <= uu;
    }
  }

  /** The integer-only order agrees with the order of the real values, for s = sqrt(2). */
  lemma LtAgreesWithValue(x: ZSqrt2, y: ZSqrt2, s: real)
    requires s > 0.0 && s * s == 2.0
    ensures Lt(x, y) <==> Value(x, s) < Value(y, s)
  {
    var da := (x.a - y.a) as real;
    var db := (y.b - x.b) as real;
    assert Value(x, s) < Value(y, s) <==> da < s * db;
    assert (s * db) * (s * db) == 2.0 * (db * db);
    assert ((x.a - y.a) * (x.a - y.a)) as real == da * da;
    assert (2 * (y.b - x.b) * (y.b - x.b)) as real == 2.0 * (db * db);
    if x.b != y.b {
      if db < 0.0 {
        if da < 0.0 { SquareMonotone(-s * db, -da); }
      } else {
        if 0.0 <= da { SquareMonotone(da, s * db); }
      }
    }
  }

  lemma LeAgreesWithValue(x: ZSqrt2, y: ZSqrt2, s: real)
    requires s > 0.0 && s * s == 2.0
    ensures Le(x, y) <==> Value(x, s) <= Value(y, s)
    ensures Gt(x, y) <==> Value(x, s) > Value(y, s)
    ensures Ge(x, y) <==> Value(x, s) >= Value(y, s)
  {
    LtAgreesWithValue(x, y, s);
    LtAgreesWithValue(y, x, s);
    if Value(x, s) == Value(y, s) {
      ValueInjective(x, y, s);
    }
  }

  /** Distinct elements have distinct values, since sqrt(2) is irrational. */
  lemma ValueInjective(x: ZSqrt2, y: ZSqrt2, s: real)
    requires s > 0.0 && s * s == 2.0
    requires Value(x, s) == Value(y, s)
    ensures x == y
  {
    LtAgreesWithValue(x, y, s);
    LtAgreesWithValue(y, x, s);
    if x.b != y.b {
      var da := x.a - y.a;
      var db := y.b - x.b;
      assert !Lt(x, y) && !Lt(y, x);
      assert da * da == 2 * db * db;
      SignedNormZero(ZSqrt2(da, db));
    }
  }

  // ---------------------------------------------------------------------------------
  // Powers

  /** p-fold multiplication. */
  function Pow(x: ZSqrt2, p: nat): ZSqrt2 {
    if p == 0 then One else Mul(x, Pow(x, p - 1))
  }

  lemma {:induction false} PowAdd(x: ZSqrt2, p: nat, q: nat)
    ensures Pow(x, p + q) == Mul(Pow(x, p), Pow(x, q))
  {
    if p == 0 {
      MulOne(Pow(x, q));
    } else {
      PowAdd(x, p - 1, q);
      MulAssoc(x, Pow(x, p - 1), Pow(x, q));
    }
  }

  lemma {:induction false} PowSquare(x: ZSqrt2, k: nat)
    ensures Pow(Mul(x, x), k) == Pow(x, 2 * k)
  {
    if k > 0 {
      PowSquare(x, k - 1);
      PowAdd(x, 2, 2 * k - 2);
      assert Pow(x, 2) == Mul(x, x) by {
        assert Pow(x, 1) == Mul(x, One);
        MulOne(x);
      }
    }
  }

  /** The value of x^p is the p-th power of the value of x. */
  lemma PowValue(x: ZSqrt2, p: nat, s: real)
    requires s * s == 2.0
    ensures Value(Pow(x, p), s) == RealPow(Value(x, s), p)
  {
    var f := (y: ZSqrt2) => Value(y, s);
    forall a: ZSqrt2, b: ZSqrt2 ensures f(Mul(a, b)) == f(a) * f(b) {
      MulValue(a, b, s);
    }
    PowHomomorphism(f, x, p);
  }

  /** Any multiplicative map sending 1 to 1 sends x^p to the p-th power of its image. */
  lemma {:induction false} PowHomomorphism(f: ZSqrt2 -> real, x: ZSqrt2, p: nat)
    requires f(One) == 1.0
    requires forall a: ZSqrt2, b: ZSqrt2 :: f(Mul(a, b)) == f(a) * f(b)
    ensures f(Pow(x, p)) == RealPow(f(x), p)
  {
    if p > 0 {
      PowHomomorphism(f, x, p - 1);
    }
  }

  function RealPow(v: real, p: nat): real {
    if p == 0 then 1.0 else v * RealPow(v, p - 1)
  }

  /** `_power`: binary exponentiation, equal to p-fold multiplication. */
  method Power(x: ZSqrt2, p: nat) returns (r: ZSqrt2)
    ensures r == Pow(x, p)
  {
    if p == 0 {
      return One;
    }
    var y := One;
    var base := x;
    var e := p;
    while e > 1
      invariant e >= 1
      invariant Pow(x, p) == Mul(Pow(base, e), y)
      decreases e
    {
      PowOddStep(base, e, y);
      if e % 2 == 1 {
        y := Mul(y, base);
      }
      base := Mul(base, base);
      e := e / 2;
    }
    MulOne(base);
    r := Mul(base, y);
  }

  lemma PowOddStep(base: ZSqrt2, e: nat, y: ZSqrt2)
    requires e > 1
    ensures Mul(Pow(base, e), y)
         == Mul(Pow(Mul(base, base), e / 2), if e % 2 == 1 then Mul(y, base) else y)
  {
    PowSquare(base, e / 2);
    if e % 2 == 1 {
      PowAdd(base, 2 * (e / 2), 1);
      MulOne(base);
      MulAssoc(Pow(base, 2 * (e / 2)), base, y);
      MulComm(base, y);
    }
  }

  /** `__pow__`: an AssertionError (None) for a negative exponent, else the power. */
  method PowChecked(x: ZSqrt2, p: int) returns (r: Option<ZSqrt2>)
    ensures p < 0 ==> r == None
    ensures p >= 0 ==> r == Some(Pow(x, p))
  {
    if p < 0 {
      return None;
    }
    var v := Power(x, p);
    return Some(v);
  }

  // ---------------------------------------------------------------------------------
  // Greatest common divisor

  /**
   * One Euclidean step: with c = y // x, one of the four candidates c + {0,1} + {0,1}sqrt(2)
   * leaves a remainder y - r*x of norm smaller than the norm of x.
   */
  lemma EuclidStep(x: ZSqrt2, y: ZSqrt2) returns (d: ZSqrt2)
    requires x != Zero
    ensures d.a in {0, 1} && d.b in {0, 1}
    ensures Norm(Sub(y, Mul(Add(FloorDiv(y, x), d), x))) < Norm(x)
  {
    NormZero(x);
    var n := SignedNorm(x);
    var res := Mul(y, Conj(x));
    var c := FloorDiv(y, x);
    assert c.a == PyInt.FloorDiv(res.a, n) && c.b == PyInt.FloorDiv(res.b, n);
    var i := Round(res.a - c.a * n, n);
    var j := Round(res.b - c.b * n, n);
    d := ZSqrt2(i, j);
    var r := Add(c, d);
    Distrib(c.a, i, n);
    Distrib(c.b, j, n);
    var A, B := res.a - r.a * n, res.b - r.b * n;
    assert A == (res.a - c.a * n) - i * n && B == (res.b - c.b * n) - j * n;
    RemainderSmall(x, y, r);
  }

  /** A quotient r whose remainder coordinates are within |n|/2 leaves a smaller norm. */
  lemma RemainderSmall(x: ZSqrt2, y: ZSqrt2, r: ZSqrt2)
    requires x != Zero
    requires 4 * ((Mul(y, Conj(x)).a - r.a * SignedNorm(x)) * (Mul(y, Conj(x)).a - r.a * SignedNorm(x)))
             <= SignedNorm(x) * SignedNorm(x)
    requires 4 * ((Mul(y, Conj(x)).b - r.b * SignedNorm(x)) * (Mul(y, Conj(x)).b - r.b * SignedNorm(x)))
             <= SignedNorm(x) * SignedNorm(x)
    ensures Norm(Sub(y, Mul(r, x))) < Norm(x)
  {
    NormZero(x);
    var n := SignedNorm(x);
    var res := Mul(y, Conj(x));
    var A, B := res.a - r.a * n, res.b - r.b * n;
    var z := Sub(y, Mul(r, x));
    RemainderTimesConj(x, y, r);
    NormTimes(z, x, A, B);
    var nz, nx := Norm(z), Norm(x);
    HalfBound(A, B, n);
    AbsSquare(n);
    LessAfterCancel(nz, nx);
  }

  lemma NormTimes(z: ZSqrt2, x: ZSqrt2, A: int, B: int)
    requires Mul(z, Conj(x)) == ZSqrt2(A, B)
    ensures Norm(z) * Norm(x) == PyInt.Abs(A * A - 2 * (B * B))
  {
    var w := Mul(z, Conj(x));
    assert Norm(w) == PyInt.Abs(A * A - 2 * (B * B));
    NormMultiplicative(z, Conj(x));
    assert Norm(Conj(x)) == Norm(x) by { ConjProperties(x); }
  }

  /** (y - r*x) * conj(x) == y * conj(x) - r * SignedNorm(x). */
  lemma RemainderTimesConj(x: ZSqrt2, y: ZSqrt2, r: ZSqrt2)
    ensures Mul(Sub(y, Mul(r, x)), Conj(x)) == Sub(Mul(y, Conj(x)), Scale(r, SignedNorm(x)))
  {
    MulAddDistrib(Conj(x), y, Mul(r, x));
    MulComm(Conj(x), y);
    MulComm(Conj(x), Mul(r, x));
    MulComm(Conj(x), Sub(y, Mul(r, x)));
    TimesConjTimes(r, x);
  }

  /** Coordinates within |n|/2 give |A^2 - 2B^2| <= n^2 / 2 < n^2. */
  lemma HalfBound(A: int, B: int, n: int)
    requires n != 0 && 4 * (A * A) <= n * n && 4 * (B * B) <= n * n
    ensures PyInt.Abs(A * A - 2 * (B * B)) < n * n
  {
    var aa, bb, nn := A * A, B * B, n * n;
    assert aa >= 0 && bb >= 0;
    assert nn > 0;
  }

  lemma Distrib(p: int, q: int, n: int)
    ensures (p + q) * n == p * n + q * n
  {}

  lemma AbsSquare(n: int)
    ensures PyInt.Abs(n) * PyInt.Abs(n) == n * n
  {
    if n < 0 { assert (-n) * (-n) == n * n; }
  }

  /** nz * nx < nx * nx forces nz < nx. */
  lemma LessAfterCancel(nz: nat, nx: nat)
    requires nz * nx < nx * nx
    ensures nz < nx
  {
    assert nx > 0;
    MulSign(nz - nx, nx);
    assert (nz - nx) * nx == nz * nx - nx * nx;
  }

  /** Picks i in {0, 1} so that the remainder e - i*n lies within |n|/2 of zero. */
  lemma Round(e: int, n: int) returns (i: int)
    requires n != 0
    requires n > 0 ==> 0 <= e < n
    requires n < 0 ==> n < e <= 0
    ensures i in {0, 1}
    ensures 4 * ((e - i * n) * (e - i * n)) <= n * n
  {
    var m := PyInt.Abs(n);
    var f := PyInt.Abs(e);
    if 2 * f <= m {
      i := 0;
      assert 2 * PyInt.Abs(e) <= m;
      SquareBound(e, n);
    } else {
      i := 1;
      assert 2 * PyInt.Abs(e - n) <= m;
      SquareBound(e - n, n);
    }
  }

  lemma SquareBound(u: int, n: int)
    requires 2 * PyInt.Abs(u) <= PyInt.Abs(n)
    ensures 4 * (u * u) <= n * n
  {
    var p, q := PyInt.Abs(u), PyInt.Abs(n);
    assert u * u == p * p && n * n == q * q;
    assert (2 * p) * (2 * p) <= q * q by {
      assert (2 * p) * (2 * p) <= q * (2 * p) <= q * q;
    }
  }

  /** The ideal generated by g contains x and y, and g is a combination of x and y. */
  ghost predicate IsGcd(g: ZSqrt2, x: ZSqrt2, y: ZSqrt2) {
    Divides(g, x) && Divides(g, y) &&
    exists u, v :: g == Add(Mul(u, x), Mul(v, y))
  }

  /** Every common divisor of x and y divides a gcd of x and y. */
  lemma GcdIsGreatest(g: ZSqrt2, x: ZSqrt2, y: ZSqrt2, h: ZSqrt2)
    requires IsGcd(g, x, y) && Divides(h, x) && Divides(h, y)
    ensures Divides(h, g)
  {
    var u, v :| g == Add(Mul(u, x), Mul(v, y));
    var p :| Mul(p, h) == x;
    var q :| Mul(q, h) == y;
    MulAssoc(u, p, h);
    MulAssoc(v, q, h);
    MulComm(h, Mul(u, p));
    MulComm(h, Mul(v, q));
    MulAddDistrib(h, Mul(u, p), Mul(v, q));
    MulComm(h, Add(Mul(u, p), Mul(v, q)));
    assert Mul(Add(Mul(u, p), Mul(v, q)), h) == g;
  }

  /** Multiplication by a nonzero element is injective. */
  lemma MulCancel(s: ZSqrt2, t: ZSqrt2, g: ZSqrt2)
    requires g != Zero && Mul(s, g) == Mul(t, g)
    ensures s == t
  {
    NormZero(g);
    TimesConjTimes(s, g);
    TimesConjTimes(t, g);
    ScaleCancel(s, t, SignedNorm(g));
  }

  /**
   * Dividing x and y by a nonzero gcd leaves coprime quotients: 1 is a gcd of x/g and y/g,
   * so every common divisor of the quotients is a unit.
   */
  lemma QuotientsCoprime(g: ZSqrt2, x: ZSqrt2, y: ZSqrt2, p: ZSqrt2, q: ZSqrt2)
    requires IsGcd(g, x, y) && g != Zero && Mul(p, g) == x && Mul(q, g) == y
    ensures IsGcd(One, p, q)
  {
    var u, v :| g == Add(Mul(u, x), Mul(v, y));
    MulAssoc(u, p, g);
    MulAssoc(v, q, g);
    MulComm(g, Mul(u, p));
    MulComm(g, Mul(v, q));
    MulAddDistrib(g, Mul(u, p), Mul(v, q));
    MulComm(g, Add(Mul(u, p), Mul(v, q)));
    MulOne(g);
    MulCancel(Add(Mul(u, p), Mul(v, q)), One, g);
    MulOne(p);
    MulOne(q);
  }

  /** A gcd of coprime elements is a unit: its norm is 1. */
  lemma GcdOfCoprimeIsUnit(h: ZSqrt2, p: ZSqrt2, q: ZSqrt2)
    requires IsGcd(h, p, q) && IsGcd(One, p, q)
    ensures Norm(h) == 1
  {
    GcdIsGreatest(One, p, q, h);
    var c :| Mul(c, h) == One;
    NormMultiplicative(c, h);
    UnitFactor(Norm(c), Norm(h));
  }


  lemma UnitFactor(m: nat, n: nat)
    requires m * n == 1
    ensures n == 1
  {
    if n == 0 {
    } else if n > 1 {
      if m >= 1 {
        MulSign(m - 1, n);
      }
    }
  }

  /**
   * `gcd`: One for gcd(0, 0); otherwise the Euclidean algorithm, whose remainders strictly
   * decrease in norm, ends with a gcd of the two operands.
   */
  method Gcd(x0: ZSqrt2, y0: ZSqrt2) returns (g: ZSqrt2)
    ensures x0 == Zero && y0 == Zero ==> g == One
    ensures !(x0 == Zero && y0 == Zero) ==> IsGcd(g, x0, y0) && g != Zero
  {
    if x0 == Zero && y0 == Zero {
      return One;
    }
    var x, y := x0, y0;
    ghost var m, k := Identity(), Identity();
    TracksInit(x0, y0);
    while true
      invariant Tracks(x0, y0, x, y, m, k)
      invariant !(x == Zero && y == Zero)
      decreases Norm(x) + Norm(y)
    {
      if Norm(x) > Norm(y) {
        TracksSwap(x0, y0, x, y, m, k);
        x, y := y, x;
        m, k := SwapColumns(m), SwapRows(k);
      }
      if x == Zero {
        break;
      }
      var c := FloorDiv(y, x);
      var best, r := Candidates(x, y, c);
      TracksStep(x0, y0, x, y, r, m, k);
      y := best;
      m, k := StepM(m, r), StepK(k, r);
      NormZero(y);
    }
    g := y;
    TracksAtZero(x0, y0, x, y, m, k);
  }

  /** A 2x2 matrix over the ring, for the ghost bookkeeping of `Gcd`. */
  datatype Mat = Mat(p: ZSqrt2, q: ZSqrt2, r: ZSqrt2, s: ZSqrt2)

  function Identity(): Mat { Mat(One, Zero, Zero, One) }

  function Lin(u: ZSqrt2, x: ZSqrt2, v: ZSqrt2, y: ZSqrt2): ZSqrt2 { Add(Mul(u, x), Mul(v, y)) }

  /** (x0, y0) = m (x, y) and (x, y) = k (x0, y0). */
  ghost predicate Tracks(x0: ZSqrt2, y0: ZSqrt2, x: ZSqrt2, y: ZSqrt2, m: Mat, k: Mat) {
    x0 == Lin(m.p, x, m.q, y) && y0 == Lin(m.r, x, m.s, y) &&
    x == Lin(k.p, x0, k.q, y0) && y == Lin(k.r, x0, k.s, y0)
  }

  function SwapColumns(m: Mat): Mat { Mat(m.q, m.p, m.s, m.r) }

  function SwapRows(k: Mat): Mat { Mat(k.r, k.s, k.p, k.q) }

  /** After y := y - r*x: the first column of m absorbs r, the second row of k loses r*row 1. */
  function StepM(m: Mat, r: ZSqrt2): Mat { Mat(Add(m.p, Mul(m.q, r)), m.q, Add(m.r, Mul(m.s, r)), m.s) }

  function StepK(k: Mat, r: ZSqrt2): Mat { Mat(k.p, k.q, Sub(k.r, Mul(r, k.p)), Sub(k.s, Mul(r, k.q))) }

  lemma TracksInit(x0: ZSqrt2, y0: ZSqrt2)
    ensures Tracks(x0, y0, x0, y0, Identity(), Identity())
  {}

  lemma TracksSwap(x0: ZSqrt2, y0: ZSqrt2, x: ZSqrt2, y: ZSqrt2, m: Mat, k: Mat)
    requires Tracks(x0, y0, x, y, m, k)
    ensures Tracks(x0, y0, y, x, SwapColumns(m), SwapRows(k))
  {
    AddComm(Mul(m.p, x), Mul(m.q, y));
    AddComm(Mul(m.r, x), Mul(m.s, y));
  }

  lemma TracksStep(x0: ZSqrt2, y0: ZSqrt2, x: ZSqrt2, y: ZSqrt2, r: ZSqrt2, m: Mat, k: Mat)
    requires Tracks(x0, y0, x, y, m, k)
    ensures Tracks(x0, y0, x, Sub(y, Mul(r, x)), StepM(m, r), StepK(k, r))
  {
    var y1 := Sub(y, Mul(r, x));
    Reassociate(m.p, m.q, x, y, y1, r);
    Reassociate(m.r, m.s, x, y, y1, r);
    RowUpdate(k.p, k.q, k.r, k.s, x0, y0, r, x, y);
  }

  /** When the loop stops at x == 0, both operands are multiples of y, itself a combination. */
  lemma TracksAtZero(x0: ZSqrt2, y0: ZSqrt2, x: ZSqrt2, y: ZSqrt2, m: Mat, k: Mat)
    requires x == Zero && Tracks(x0, y0, x, y, m, k)
    ensures IsGcd(y, x0, y0)
  {
    TimesZero(m.p, Mul(m.q, y));
    TimesZero(m.r, Mul(m.s, y));
    assert Mul(m.q, y) == x0;
    assert Mul(m.s, y) == y0;
    assert y == Add(Mul(k.r, x0), Mul(k.s, y0));
  }

  lemma TimesZero(m: ZSqrt2, w: ZSqrt2)
    ensures Add(Mul(m, Zero), w) == w
  {}

  lemma AddComm(u: ZSqrt2, v: ZSqrt2)
    ensures Add(u, v) == Add(v, u)
  {}

  /** With y_old == y + r*x: m0*x + m1*y_old == (m0 + m1*r)*x + m1*y. */
  lemma Reassociate(m0: ZSqrt2, m1: ZSqrt2, x: ZSqrt2, yOld: ZSqrt2, y: ZSqrt2, r: ZSqrt2)
    requires y == Sub(yOld, Mul(r, x))
    ensures Add(Mul(m0, x), Mul(m1, yOld)) == Add(Mul(Add(m0, Mul(m1, r)), x), Mul(m1, y))
  {
    MulAddDistrib(m1, y, Mul(r, x));
    assert yOld == Add(y, Mul(r, x));
    MulAssoc(m1, r, x);
    MulComm(x, m0);
    MulComm(x, Mul(m1, r));
    MulAddDistrib(x, m0, Mul(m1, r));
    MulComm(x, Add(m0, Mul(m1, r)));
  }

  /** With y == y_old - r*x and x, y_old combinations of x0 and y0, so is y. */
  lemma RowUpdate(n00: ZSqrt2, n01: ZSqrt2, n10: ZSqrt2, n11: ZSqrt2, x0: ZSqrt2, y0: ZSqrt2,
                  r: ZSqrt2, x: ZSqrt2, yOld: ZSqrt2)
    requires x == Add(Mul(n00, x0), Mul(n01, y0)) && yOld == Add(Mul(n10, x0), Mul(n11, y0))
    ensures Sub(yOld, Mul(r, x))
         == Add(Mul(Sub(n10, Mul(r, n00)), x0), Mul(Sub(n11, Mul(r, n01)), y0))
  {
    MulAddDistrib(r, Mul(n00, x0), Mul(n01, y0));
    MulAssoc(r, n00, x0);
    MulAssoc(r, n01, y0);
    MulComm(x0, n10); MulComm(x0, Mul(r, n00)); MulAddDistrib(x0, n10, Mul(r, n00));
    MulComm(x0, Sub(n10, Mul(r, n00)));
    MulComm(y0, n11); MulComm(y0, Mul(r, n01)); MulAddDistrib(y0, n11, Mul(r, n01));
    MulComm(y0, Sub(n11, Mul(r, n01)));
  }

  /**
   * The inner loop of `gcd`: among c + {0,1} + {0,1}sqrt(2), in the order of
   * itertools.product, the first candidate r whose remainder y - r*x has the smallest norm.
   * The remainder's norm is below y's, so the source's assertion always holds.
   */
  method Candidates(x: ZSqrt2, y: ZSqrt2, c: ZSqrt2) returns (best: ZSqrt2, ghost r: ZSqrt2)
    requires x != Zero && Norm(x) <= Norm(y) && c == FloorDiv(y, x)
    ensures best == Sub(y, Mul(r, x))
    ensures Norm(best) < Norm(x)
  {
    var offsets := [ZSqrt2(0, 0), ZSqrt2(0, 1), ZSqrt2(1, 0), ZSqrt2(1, 1)];
    var bestNorm := Norm(y);
    best := y;
    r := Zero;
    var k := 0;
    while k < 4
      invariant 0 <= k <= 4
      invariant bestNorm == Norm(best) && best == Sub(y, Mul(r, x))
      invariant forall i :: 0 <= i < k ==> bestNorm <= Norm(Sub(y, Mul(Add(c, offsets[i]), x)))
    {
      var cand := Add(c, offsets[k]);
      var ny := Sub(y, Mul(cand, x));
      if Norm(ny) < bestNorm {
        bestNorm := Norm(ny);
        best := ny;
        r := cand;
      }
      k := k + 1;
    }
    var d := EuclidStep(x, y);
    assert d in offsets;
  }
}
