/**
 * The ring Z[w] of cyclotomic integers c0 + c1*w + c2*w^2 + c3*w^3 with w = e^{i pi/4},
 * so that w^4 == -1: ring operations, the complex and sqrt(2) conjugates, the passage to and
 * from pairs of Z[sqrt 2] elements, the norm, Euclidean division and the gcd loop.
 */
module ZOmegaRing {
  import opened Wrappers
  import PyInt
  import Z2 = ZSqrt2Ring

  datatype ZW = ZW(c0: int, c1: int, c2: int, c3: int)

  const Zero := ZW(0, 0, 0, 0)
  const One := ZW(1, 0, 0, 0)
  const J := ZW(0, 0, 1, 0)
  const Omega := ZW(0, 1, 0, 0)
  const Sqrt2 := ZW(0, 1, 0, -1)
  const LambdaKliuchnikov := ZW(2, 1, 0, -1)
  const LambdaKliuchnikovSqrt2Conj := ZW(2, -1, 0, 1)

  /** An integer k seen as k + 0w + 0w^2 + 0w^3. */
  function FromInt(k: int): ZW { ZW(k, 0, 0, 0) }

  /** The coordinate of w^i. */
  function Coord(x: ZW, i: nat): int
    requires i < 4
  {
    match i
    case 0 => x.c0
    case 1 => x.c1
    case 2 => x.c2
    case 3 => x.c3
  }

  function FromSeq(s: seq<int>): ZW
    requires |s| == 4
  {
    ZW(s[0], s[1], s[2], s[3])
  }

  function Add(x: ZW, y: ZW): ZW { ZW(x.c0 + y.c0, x.c1 + y.c1, x.c2 + y.c2, x.c3 + y.c3) }

  function Sub(x: ZW, y: ZW): ZW { ZW(x.c0 - y.c0, x.c1 - y.c1, x.c2 - y.c2, x.c3 - y.c3) }

  function Neg(x: ZW): ZW { ZW(-x.c0, -x.c1, -x.c2, -x.c3) }

  /** Multiplication by a plain integer. */
  function Scale(x: ZW, k: int): ZW { ZW(x.c0 * k, x.c1 * k, x.c2 * k, x.c3 * k) }

  /**
   * The negacyclic convolution of two coefficient vectors: w^i * w^j == w^(i+j), and
   * == -w^(i+j-4) when i + j >= 4.
   */
  function Convolve(x0: int, x1: int, x2: int, x3: int, y0: int, y1: int, y2: int, y3: int): ZW {
    ZW(x0 * y0 - x1 * y3 - x2 * y2 - x3 * y1,
       x0 * y1 + x1 * y0 - x2 * y3 - x3 * y2,
       x0 * y2 + x1 * y1 + x2 * y0 - x3 * y3,
       x0 * y3 + x1 * y2 + x2 * y1 + x3 * y0)
  }

  function Mul(x: ZW, y: ZW): ZW {
    Convolve(x.c0, x.c1, x.c2, x.c3, y.c0, y.c1, y.c2, y.c3)
  }

  /** The complex conjugate: w^k maps to w^(-k) == -w^(4-k). */
  function Conj(x: ZW): ZW { ZW(x.c0, -x.c3, -x.c2, -x.c1) }

  /** The sqrt(2)-conjugate, the automorphism sending w to -w (so sqrt(2) to -sqrt(2)). */
  function Sqrt2Conj(x: ZW): ZW { ZW(x.c0, -x.c1, x.c2, -x.c3) }

  // ---------------------------------------------------------------------------------
  // Polynomial identities on coefficient vectors. They are stated on plain integers so
  // that each is a small arithmetic fact; the ring laws below instantiate them.

  lemma ConvolveComm(x0: int, x1: int, x2: int, x3: int, y0: int, y1: int, y2: int, y3: int)
    ensures Convolve(x0, x1, x2, x3, y0, y1, y2, y3) == Convolve(y0, y1, y2, y3, x0, x1, x2, x3)
  {}

  lemma ConvolveDistrib(x0: int, x1: int, x2: int, x3: int, y0: int, y1: int, y2: int, y3: int,
                        z0: int, z1: int, z2: int, z3: int)
    ensures Convolve(x0, x1, x2, x3, y0 + z0, y1 + z1, y2 + z2, y3 + z3)
         == Add(Convolve(x0, x1, x2, x3, y0, y1, y2, y3), Convolve(x0, x1, x2, x3, z0, z1, z2, z3))
    ensures Convolve(x0, x1, x2, x3, y0 - z0, y1 - z1, y2 - z2, y3 - z3)
         == Sub(Convolve(x0, x1, x2, x3, y0, y1, y2, y3), Convolve(x0, x1, x2, x3, z0, z1, z2, z3))
  {}

  lemma ConvolveConj(x0: int, x1: int, x2: int, x3: int, y0: int, y1: int, y2: int, y3: int)
    ensures Convolve(x0, -x3, -x2, -x1, y0, -y3, -y2, -y1)
         == Conj(Convolve(x0, x1, x2, x3, y0, y1, y2, y3))
    ensures Convolve(x0, -x1, x2, -x3, y0, -y1, y2, -y3)
         == Sqrt2Conj(Convolve(x0, x1, x2, x3, y0, y1, y2, y3))
  {}

  lemma ConvolveScale(x0: int, x1: int, x2: int, x3: int, k: int)
    ensures Convolve(x0, x1, x2, x3, k, 0, 0, 0) == ZW(x0 * k, x1 * k, x2 * k, x3 * k)
  {}

  /** x * conj(x) == p + q*sqrt(2), which has coordinates (p, q, 0, -q). */
  lemma ConvolveConjSelf(a: int, b: int, c: int, d: int)
    ensures Convolve(a, b, c, d, a, -d, -c, -b)
         == ZW(a * a + b * b + c * c + d * d, a * b + b * c + c * d - a * d,
               0, -(a * b + b * c + c * d - a * d))
    ensures Convolve(a, -b, c, -d, a, -(-d), -c, -(-b))
         == ZW(a * a + b * b + c * c + d * d, -(a * b + b * c + c * d - a * d),
               0, a * b + b * c + c * d - a * d)
  {}

  /** (p + q*sqrt(2)) * (p - q*sqrt(2)) == p^2 - 2q^2. */
  lemma ConvolveNormPair(p: int, q: int)
    ensures Convolve(p, q, 0, -q, p, -q, 0, q) == ZW(p * p - 2 * (q * q), 0, 0, 0)
  {}

  /** A multiple of a sum shaped like coordinate 0 of a product, expanded into monomials. */
  lemma Expand0(k: int, a1: int, b1: int, a2: int, b2: int, a3: int, b3: int, a4: int, b4: int)
    ensures k * (a1 * b1 - a2 * b2 - a3 * b3 - a4 * b4)
         == k * a1 * b1 - k * a2 * b2 - k * a3 * b3 - k * a4 * b4
    ensures (a1 * b1 - a2 * b2 - a3 * b3 - a4 * b4) * k
         == a1 * b1 * k - a2 * b2 * k - a3 * b3 * k - a4 * b4 * k
  {}

  /** A multiple of a sum shaped like coordinate 1 of a product, expanded into monomials. */
  lemma Expand1(k: int, a1: int, b1: int, a2: int, b2: int, a3: int, b3: int, a4: int, b4: int)
    ensures k * (a1 * b1 + a2 * b2 - a3 * b3 - a4 * b4)
         == k * a1 * b1 + k * a2 * b2 - k * a3 * b3 - k * a4 * b4
    ensures (a1 * b1 + a2 * b2 - a3 * b3 - a4 * b4) * k
         == a1 * b1 * k + a2 * b2 * k - a3 * b3 * k - a4 * b4 * k
  {}

  /** A multiple of a sum shaped like coordinate 2 of a product, expanded into monomials. */
  lemma Expand2(k: int, a1: int, b1: int, a2: int, b2: int, a3: int, b3: int, a4: int, b4: int)
    ensures k * (a1 * b1 + a2 * b2 + a3 * b3 - a4 * b4)
         == k * a1 * b1 + k * a2 * b2 + k * a3 * b3 - k * a4 * b4
    ensures (a1 * b1 + a2 * b2 + a3 * b3 - a4 * b4) * k
         == a1 * b1 * k + a2 * b2 * k + a3 * b3 * k - a4 * b4 * k
  {}

  /** A multiple of a sum shaped like coordinate 3 of a product, expanded into monomials. */
  lemma Expand3(k: int, a1: int, b1: int, a2: int, b2: int, a3: int, b3: int, a4: int, b4: int)
    ensures k * (a1 * b1 + a2 * b2 + a3 * b3 + a4 * b4)
         == k * a1 * b1 + k * a2 * b2 + k * a3 * b3 + k * a4 * b4
    ensures (a1 * b1 + a2 * b2 + a3 * b3 + a4 * b4) * k
         == a1 * b1 * k + a2 * b2 * k + a3 * b3 * k + a4 * b4 * k
  {}

  /** Coordinate 0 of (x*y)*z == x*(y*z). */
  lemma AssocCoord0(x0: int, x1: int, x2: int, x3: int, y0: int, y1: int, y2: int, y3: int,
                     z0: int, z1: int, z2: int, z3: int)
    ensures
       (x0 * y0 - x1 * y3 - x2 * y2 - x3 * y1) * z0
     - (x0 * y1 + x1 * y0 - x2 * y3 - x3 * y2) * z3
     - (x0 * y2 + x1 * y1 + x2 * y0 - x3 * y3) * z2
     - (x0 * y3 + x1 * y2 + x2 * y1 + x3 * y0) * z1
    ==
       x0 * (y0 * z0 - y1 * z3 - y2 * z2 - y3 * z1)
     - x1 * (y0 * z3 + y1 * z2 + y2 * z1 + y3 * z0)
     - x2 * (y0 * z2 + y1 * z1 + y2 * z0 - y3 * z3)
     - x3 * (y0 * z1 + y1 * z0 - y2 * z3 - y3 * z2)
  {
    Expand0(z0, x0, y0, x1, y3, x2, y2, x3, y1);
    Expand0(x0, y0, z0, y1, z3, y2, z2, y3, z1);
    Expand1(z3, x0, y1, x1, y0, x2, y3, x3, y2);
    Expand3(x1, y0, z3, y1, z2, y2, z1, y3, z0);
    Expand2(z2, x0, y2, x1, y1, x2, y0, x3, y3);
    Expand2(x2, y0, z2, y1, z1, y2, z0, y3, z3);
    Expand3(z1, x0, y3, x1, y2, x2, y1, x3, y0);
    Expand1(x3, y0, z1, y1, z0, y2, z3, y3, z2);
  }

  /** Coordinate 1 of (x*y)*z == x*(y*z). */
  lemma AssocCoord1(x0: int, x1: int, x2: int, x3: int, y0: int, y1: int, y2: int, y3: int,
                     z0: int, z1: int, z2: int, z3: int)
    ensures
       (x0 * y0 - x1 * y3 - x2 * y2 - x3 * y1) * z1
     + (x0 * y1 + x1 * y0 - x2 * y3 - x3 * y2) * z0
     - (x0 * y2 + x1 * y1 + x2 * y0 - x3 * y3) * z3
     - (x0 * y3 + x1 * y2 + x2 * y1 + x3 * y0) * z2
    ==
       x0 * (y0 * z1 + y1 * z0 - y2 * z3 - y3 * z2)
     + x1 * (y0 * z0 - y1 * z3 - y2 * z2 - y3 * z1)
     - x2 * (y0 * z3 + y1 * z2 + y2 * z1 + y3 * z0)
     - x3 * (y0 * z2 + y1 * z1 + y2 * z0 - y3 * z3)
  {
    Expand0(z1, x0, y0, x1, y3, x2, y2, x3, y1);
    Expand1(x0, y0, z1, y1, z0, y2, z3, y3, z2);
    Expand1(z0, x0, y1, x1, y0, x2, y3, x3, y2);
    Expand0(x1, y0, z0, y1, z3, y2, z2, y3, z1);
    Expand2(z3, x0, y2, x1, y1, x2, y0, x3, y3);
    Expand3(x2, y0, z3, y1, z2, y2, z1, y3, z0);
    Expand3(z2, x0, y3, x1, y2, x2, y1, x3, y0);
    Expand2(x3, y0, z2, y1, z1, y2, z0, y3, z3);
  }

  /** Coordinate 2 of (x*y)*z == x*(y*z). */
  lemma AssocCoord2(x0: int, x1: int, x2: int, x3: int, y0: int, y1: int, y2: int, y3: int,
                     z0: int, z1: int, z2: int, z3: int)
    ensures
       (x0 * y0 - x1 * y3 - x2 * y2 - x3 * y1) * z2
     + (x0 * y1 + x1 * y0 - x2 * y3 - x3 * y2) * z1
     + (x0 * y2 + x1 * y1 + x2 * y0 - x3 * y3) * z0
     - (x0 * y3 + x1 * y2 + x2 * y1 + x3 * y0) * z3
    ==
       x0 * (y0 * z2 + y1 * z1 + y2 * z0 - y3 * z3)
     + x1 * (y0 * z1 + y1 * z0 - y2 * z3 - y3 * z2)
     + x2 * (y0 * z0 - y1 * z3 - y2 * z2 - y3 * z1)
     - x3 * (y0 * z3 + y1 * z2 + y2 * z1 + y3 * z0)
  {
    Expand0(z2, x0, y0, x1, y3, x2, y2, x3, y1);
    Expand2(x0, y0, z2, y1, z1, y2, z0, y3, z3);
    Expand1(z1, x0, y1, x1, y0, x2, y3, x3, y2);
    Expand1(x1, y0, z1, y1, z0, y2, z3, y3, z2);
    Expand2(z0, x0, y2, x1, y1, x2, y0, x3, y3);
    Expand0(x2, y0, z0, y1, z3, y2, z2, y3, z1);
    Expand3(z3, x0, y3, x1, y2, x2, y1, x3, y0);
    Expand3(x3, y0, z3, y1, z2, y2, z1, y3, z0);
  }

  /** Coordinate 3 of (x*y)*z == x*(y*z). */
  lemma AssocCoord3(x0: int, x1: int, x2: int, x3: int, y0: int, y1: int, y2: int, y3: int,
                     z0: int, z1: int, z2: int, z3: int)
    ensures
       (x0 * y0 - x1 * y3 - x2 * y2 - x3 * y1) * z3
     + (x0 * y1 + x1 * y0 - x2 * y3 - x3 * y2) * z2
     + (x0 * y2 + x1 * y1 + x2 * y0 - x3 * y3) * z1
     + (x0 * y3 + x1 * y2 + x2 * y1 + x3 * y0) * z0
    ==
       x0 * (y0 * z3 + y1 * z2 + y2 * z1 + y3 * z0)
     + x1 * (y0 * z2 + y1 * z1 + y2 * z0 - y3 * z3)
     + x2 * (y0 * z1 + y1 * z0 - y2 * z3 - y3 * z2)
     + x3 * (y0 * z0 - y1 * z3 - y2 * z2 - y3 * z1)
  {
    Expand0(z3, x0, y0, x1, y3, x2, y2, x3, y1);
    Expand3(x0, y0, z3, y1, z2, y2, z1, y3, z0);
    Expand1(z2, x0, y1, x1, y0, x2, y3, x3, y2);
    Expand2(x1, y0, z2, y1, z1, y2, z0, y3, z3);
    Expand2(z1, x0, y2, x1, y1, x2, y0, x3, y3);
    Expand1(x2, y0, z1, y1, z0, y2, z3, y3, z2);
    Expand3(z0, x0, y3, x1, y2, x2, y1, x3, y0);
    Expand0(x3, y0, z0, y1, z3, y2, z2, y3, z1);
  }

  // ---------------------------------------------------------------------------------
  // Ring laws

  lemma MulComm(x: ZW, y: ZW)
    ensures Mul(x, y) == Mul(y, x)
  {
    ConvolveComm(x.c0, x.c1, x.c2, x.c3, y.c0, y.c1, y.c2, y.c3);
  }

  lemma MulAssoc(x: ZW, y: ZW, z: ZW)
    ensures Mul(Mul(x, y), z) == Mul(x, Mul(y, z))
  {
    AssocCoord0(x.c0, x.c1, x.c2, x.c3, y.c0, y.c1, y.c2, y.c3, z.c0, z.c1, z.c2, z.c3);
    AssocCoord1(x.c0, x.c1, x.c2, x.c3, y.c0, y.c1, y.c2, y.c3, z.c0, z.c1, z.c2, z.c3);
    AssocCoord2(x.c0, x.c1, x.c2, x.c3, y.c0, y.c1, y.c2, y.c3, z.c0, z.c1, z.c2, z.c3);
    AssocCoord3(x.c0, x.c1, x.c2, x.c3, y.c0, y.c1, y.c2, y.c3, z.c0, z.c1, z.c2, z.c3);
  }

  lemma MulAddDistrib(x: ZW, y: ZW, z: ZW)
    ensures Mul(x, Add(y, z)) == Add(Mul(x, y), Mul(x, z))
    ensures Mul(x, Sub(y, z)) == Sub(Mul(x, y), Mul(x, z))
  {
    ConvolveDistrib(x.c0, x.c1, x.c2, x.c3, y.c0, y.c1, y.c2, y.c3, z.c0, z.c1, z.c2, z.c3);
  }

  lemma MulOne(x: ZW)
    ensures Mul(x, One) == x && Mul(One, x) == x
  {
    ConvolveScale(x.c0, x.c1, x.c2, x.c3, 1);
    ConvolveComm(x.c0, x.c1, x.c2, x.c3, 1, 0, 0, 0);
  }

  lemma MulFromInt(x: ZW, k: int)
    ensures Mul(x, FromInt(k)) == Scale(x, k)
  {
    ConvolveScale(x.c0, x.c1, x.c2, x.c3, k);
  }

  lemma AddComm(u: ZW, v: ZW)
    ensures Add(u, v) == Add(v, u)
  {}

  lemma ConvolveOmega(x0: int, x1: int, x2: int, x3: int)
    ensures Convolve(0, 1, 0, 0, x0, x1, x2, x3) == ZW(-x3, x0, x1, x2)
  {}

  /** Multiplying by w shifts the coordinates one place, with w^4 == -1. */
  lemma OmegaShifts(x: ZW)
    ensures Mul(Omega, x) == ZW(-x.c3, x.c0, x.c1, x.c2)
  {
    ConvolveOmega(x.c0, x.c1, x.c2, x.c3);
  }

  /** w^2 == i and w^4 == -1. */
  lemma OmegaPowers()
    ensures Mul(Omega, Omega) == J
    ensures Mul(Omega, Mul(Omega, J)) == Neg(One)
  {
    OmegaShifts(Omega);
    OmegaShifts(J);
    var w3 := Mul(Omega, J);
    OmegaShifts(w3);
  }

  /** sqrt(2) == w - w^3 squares to 2. */
  lemma Sqrt2Squared()
    ensures Mul(Sqrt2, Sqrt2) == FromInt(2)
  {
    ConvolveSqrt2(1);
  }

  lemma ConvolveSqrt2(b: int)
    ensures Convolve(0, b, 0, -b, 0, b, 0, -b) == ZW(2 * (b * b), 0, 0, 0)
  {}

  /** Both conjugations are involutions and respect multiplication. */
  lemma ConjugationLaws(x: ZW, y: ZW)
    ensures Conj(Conj(x)) == x && Sqrt2Conj(Sqrt2Conj(x)) == x
    ensures Conj(Mul(x, y)) == Mul(Conj(x), Conj(y))
    ensures Sqrt2Conj(Mul(x, y)) == Mul(Sqrt2Conj(x), Sqrt2Conj(y))
  {
    ConvolveConj(x.c0, x.c1, x.c2, x.c3, y.c0, y.c1, y.c2, y.c3);
  }

  // ---------------------------------------------------------------------------------
  // The multiplication loop of `__mul__`

  /** The signed product coords[i] * other.coords[j] that the loop adds at (i + j) & 3. */
  function Term(x: ZW, y: ZW, i: nat, j: nat): int
    requires i < 4 && j < 4
  {
    var p := Coord(x, i) * Coord(y, j);
    if i + j >= 4 then -p else p
  }

  /** The accumulator after rows 0 .. i-1 of the nested loop and the first j steps of row i. */
  function Partial(x: ZW, y: ZW, i: nat, j: nat): (c: seq<int>)
    requires i <= 4 && j <= 4 && (i == 4 ==> j == 0)
    ensures |c| == 4
    decreases i, j
  {
    if j == 0 then
      if i == 0 then [0, 0, 0, 0] else Partial(x, y, i - 1, 4)
    else
      var c := Partial(x, y, i, j - 1);
      var k := (i + j - 1) % 4;
      c[k := c[k] + Term(x, y, i, j - 1)]
  }

  /** One step of the inner loop, written as the loop body computes it. */
  lemma PartialStep(x: ZW, y: ZW, i: nat, j: nat)
    requires i < 4 && j < 4
    ensures var c := Partial(x, y, i, j);
            var sgn := if i + j >= 4 then -1 else 1;
            var k := (i + j) % 4;
            Partial(x, y, i, j + 1) == c[k := c[k] + sgn * (Coord(x, i) * Coord(y, j))]
  {
    var p := Coord(x, i) * Coord(y, j);
    if i + j >= 4 {
      assert -1 * p == -p;
    }
  }

  /** Sixteen steps of accumulation give the negacyclic product. */
  lemma PartialComplete(x: ZW, y: ZW)
    ensures FromSeq(Partial(x, y, 4, 0)) == Mul(x, y)
  {
    var p4 := Partial(x, y, 1, 0);
    assert p4 == [x.c0 * y.c0, x.c0 * y.c1, x.c0 * y.c2, x.c0 * y.c3];
    var p8 := Partial(x, y, 2, 0);
    assert p8 == [p4[0] - x.c1 * y.c3, p4[1] + x.c1 * y.c0, p4[2] + x.c1 * y.c1,
                  p4[3] + x.c1 * y.c2];
    var p12 := Partial(x, y, 3, 0);
    assert p12 == [p8[0] - x.c2 * y.c2, p8[1] - x.c2 * y.c3, p8[2] + x.c2 * y.c0,
                   p8[3] + x.c2 * y.c1];
    var p16 := Partial(x, y, 4, 0);
    assert p16 == [p12[0] - x.c3 * y.c1, p12[1] - x.c3 * y.c2, p12[2] - x.c3 * y.c3,
                   p12[3] + x.c3 * y.c0];
  }

  /** `__mul__`: the nested accumulation loop computes the negacyclic product. */
  method MulLoop(x: ZW, y: ZW) returns (r: ZW)
    ensures r == Mul(x, y)
  {
    var c := [0, 0, 0, 0];
    for i := 0 to 4
      invariant c == Partial(x, y, i, 0)
    {
      for j := 0 to 4
        invariant c == Partial(x, y, i, j)
      {
        var sgn := if i + j >= 4 then -1 else 1;
        var k := (i + j) % 4;
        PartialStep(x, y, i, j);
        c := c[k := c[k] + sgn * (Coord(x, i) * Coord(y, j))];
      }
    }
    PartialComplete(x, y);
    r := FromSeq(c);
  }

  // ---------------------------------------------------------------------------------
  // Pairs of Z[sqrt 2] elements

  /** `from_pair`: alpha + i*beta, plus w when includeW. */
  function FromPair(alpha: Z2.ZSqrt2, beta: Z2.ZSqrt2, includeW: bool): ZW {
    ZW(alpha.a, alpha.b + beta.b + (if includeW then 1 else 0), beta.a, beta.b - alpha.b)
  }

  /** `to_zsqrt2`: the (alpha, beta, includeW) with alpha + i*beta (+ w) == x. */
  function ToZSqrt2(x: ZW): (Z2.ZSqrt2, Z2.ZSqrt2, bool) {
    var r := (x.c1 + x.c3) % 2;
    (Z2.ZSqrt2(x.c0, (x.c1 - x.c3 - r) / 2), Z2.ZSqrt2(x.c2, (x.c1 + x.c3 - r) / 2), r == 1)
  }

  lemma FromPairToZSqrt2(x: ZW)
    ensures var t := ToZSqrt2(x); FromPair(t.0, t.1, t.2) == x
  {
    var r := (x.c1 + x.c3) % 2;
    var u, v := (x.c1 - x.c3 - r) / 2, (x.c1 + x.c3 - r) / 2;
    assert x.c1 - x.c3 - r == 2 * u && x.c1 + x.c3 - r == 2 * v;
  }

  lemma ToZSqrt2FromPair(alpha: Z2.ZSqrt2, beta: Z2.ZSqrt2, includeW: bool)
    ensures ToZSqrt2(FromPair(alpha, beta, includeW)) == (alpha, beta, includeW)
  {
    var x := FromPair(alpha, beta, includeW);
    var w := if includeW then 1 else 0;
    assert x.c1 + x.c3 == 2 * beta.b + w;
    assert (x.c1 + x.c3) % 2 == w;
    assert x.c1 - x.c3 - w == 2 * alpha.b;
    assert x.c1 + x.c3 - w == 2 * beta.b;
  }

  /** w is needed exactly for elements whose odd coordinates have an odd sum. */
  lemma ToZSqrt2NeedsW(x: ZW)
    ensures ToZSqrt2(x).2 <==> (x.c1 + x.c3) % 2 == 1
  {}

  // ---------------------------------------------------------------------------------
  // Norm

  /** x * conj(x) == P(x) + Q(x) * sqrt(2). */
  function P(x: ZW): int { x.c0 * x.c0 + x.c1 * x.c1 + x.c2 * x.c2 + x.c3 * x.c3 }

  function Q(x: ZW): int { x.c0 * x.c1 + x.c1 * x.c2 + x.c2 * x.c3 - x.c0 * x.c3 }

  /** The four-fold product `x * conj(x) * sqrt2_conj(x) * conj(sqrt2_conj(x))` of `norm`. */
  function NormProduct(x: ZW): ZW {
    Mul(Mul(Mul(x, Conj(x)), Sqrt2Conj(x)), Conj(Sqrt2Conj(x)))
  }

  lemma NormProductIsInteger(x: ZW)
    ensures NormProduct(x) == FromInt(P(x) * P(x) - 2 * (Q(x) * Q(x)))
  {
    var p, q := P(x), Q(x);
    var s := Sqrt2Conj(x);
    ConvolveConjSelf(x.c0, x.c1, x.c2, x.c3);
    assert Mul(x, Conj(x)) == ZW(p, q, 0, -q);
    assert Mul(s, Conj(s)) == ZW(p, -q, 0, q);
    MulAssoc(Mul(x, Conj(x)), s, Conj(s));
    ConvolveNormPair(p, q);
  }

  /** p^2 >= 2 q^2, by Cauchy-Schwarz and the inequality 4uv <= (u + v)^2. */
  lemma NormNonnegative(a: int, b: int, c: int, d: int)
    ensures var p := a * a + b * b + c * c + d * d;
            var q := a * b + b * c + c * d - a * d;
            p * p - 2 * (q * q) >= 0
  {
    var p := a * a + b * b + c * c + d * d;
    var q := a * b + b * c + c * d - a * d;
    var u, v := a * a + c * c, b * b + d * d;
    var e, f := a + c, c - a;
    assert q == b * e + d * f;
    CauchySchwarz2(b, d, e, f);
    assert e * e + f * f == 2 * u;
    AmGm(u, v);
    assert p == u + v;
    var qq, uv, pp := q * q, u * v, p * p;
    assert qq <= v * (2 * u);
    assert v * (2 * u) == 2 * uv;
    assert 4 * uv <= pp;
  }

  lemma CauchySchwarz2(b: int, d: int, e: int, f: int)
    ensures (b * e + d * f) * (b * e + d * f) <= (b * b + d * d) * (e * e + f * f)
  {
    var g := b * f - d * e;
    assert (b * b + d * d) * (e * e + f * f) - (b * e + d * f) * (b * e + d * f) == g * g;
  }

  lemma AmGm(u: int, v: int)
    ensures 4 * (u * v) <= (u + v) * (u + v)
  {
    assert (u + v) * (u + v) - 4 * (u * v) == (u - v) * (u - v);
  }

  /**
   * `norm`: the first coordinate of the four-fold product. The other coordinates vanish and
   * the first is non-negative, so the two assertions of the source always hold.
   */
  function Norm(x: ZW): (r: nat)
    ensures NormProduct(x) == FromInt(r)
  {
    NormProductIsInteger(x);
    NormNonnegative(x.c0, x.c1, x.c2, x.c3);
    NormProduct(x).c0
  }

  lemma NormZero(x: ZW)
    ensures Norm(x) == 0 <==> x == Zero
  {
    if Norm(x) == 0 {
      NormZeroOnlyIfZero(x);
    }
    if x == Zero {
      TimesZero(Conj(x));
      TimesZero(Sqrt2Conj(x));
      TimesZero(Conj(Sqrt2Conj(x)));
      assert NormProduct(x) == Zero;
    }
  }

  /** p^2 == 2q^2 forces p == 0, and p is a sum of squares. */
  lemma NormZeroOnlyIfZero(x: ZW)
    requires Norm(x) == 0
    ensures x == Zero
  {
    NormProductIsInteger(x);
    Z2.NoSquareTwiceSquare(P(x), Q(x));
    SquaresZero(x.c0, x.c1, x.c2, x.c3);
  }

  lemma SquaresZero(a: int, b: int, c: int, d: int)
    requires a * a + b * b + c * c + d * d == 0
    ensures a == 0 && b == 0 && c == 0 && d == 0
  {
    PositiveSquare(a);
    PositiveSquare(b);
    PositiveSquare(c);
    PositiveSquare(d);
  }

  lemma PositiveSquare(a: int)
    ensures a * a >= 0
    ensures a != 0 ==> a * a > 0
  {
    assert a * a == PyInt.Abs(a) * PyInt.Abs(a);
  }

  /** Z[sqrt 2] inside Z[w]: a + b*sqrt(2) == a + b*w - b*w^3. */
  function Embed(z: Z2.ZSqrt2): ZW { ZW(z.a, z.b, 0, -z.b) }

  /** The squared modulus x * conj(x), an element of Z[sqrt 2]. */
  function AbsSquared(x: ZW): (r: Z2.ZSqrt2)
    ensures Embed(r) == Mul(x, Conj(x))
  {
    ConvolveConjSelf(x.c0, x.c1, x.c2, x.c3);
    Z2.ZSqrt2(P(x), Q(x))
  }

  lemma ConvolveEmbed(a1: int, b1: int, a2: int, b2: int)
    ensures Convolve(a1, b1, 0, -b1, a2, b2, 0, -b2)
         == ZW(a1 * a2 + 2 * b1 * b2, a1 * b2 + b1 * a2, 0, -(a1 * b2 + b1 * a2))
  {}

  /** The embedding of Z[sqrt 2] respects multiplication. */
  lemma EmbedMul(u: Z2.ZSqrt2, v: Z2.ZSqrt2)
    ensures Mul(Embed(u), Embed(v)) == Embed(Z2.Mul(u, v))
  {
    ConvolveEmbed(u.a, u.b, v.a, v.b);
  }

  /** The norm of x is the Z[sqrt 2] norm of its squared modulus. */
  lemma NormIsSqrt2Norm(x: ZW)
    ensures Norm(x) == Z2.Norm(AbsSquared(x))
  {
    NormProductIsInteger(x);
    NormNonnegative(x.c0, x.c1, x.c2, x.c3);
  }

  lemma AbsSquaredMultiplicative(x: ZW, y: ZW)
    ensures AbsSquared(Mul(x, y)) == Z2.Mul(AbsSquared(x), AbsSquared(y))
  {
    var cx, cy := Conj(x), Conj(y);
    ConjugationLaws(x, y);
    // (x y)(cx cy) == x (y (cx cy)) == x (cx (y cy)) == (x cx)(y cy)
    MulAssoc(x, y, Mul(cx, cy));
    MulAssoc(y, cx, cy);
    MulComm(y, cx);
    MulAssoc(cx, y, cy);
    MulAssoc(x, cx, Mul(y, cy));
    EmbedMul(AbsSquared(x), AbsSquared(y));
  }

  /** Norm is multiplicative. */
  lemma NormMultiplicative(x: ZW, y: ZW)
    ensures Norm(Mul(x, y)) == Norm(x) * Norm(y)
  {
    NormIsSqrt2Norm(x);
    NormIsSqrt2Norm(y);
    NormIsSqrt2Norm(Mul(x, y));
    AbsSquaredMultiplicative(x, y);
    Z2.NormMultiplicative(AbsSquared(x), AbsSquared(y));
  }

  // ---------------------------------------------------------------------------------
  // Division

  /** conj(y) * sqrt2_conj(y) * conj(sqrt2_conj(y)): y times this is the integer Norm(y). */
  function Cofactor(y: ZW): ZW { Mul(Mul(Conj(y), Sqrt2Conj(y)), Conj(Sqrt2Conj(y))) }

  /** The product `x * conj(y) * sqrt2_conj(y) * conj(sqrt2_conj(y))` of `//` and the test. */
  function Numerator(x: ZW, y: ZW): ZW {
    Mul(Mul(Mul(x, Conj(y)), Sqrt2Conj(y)), Conj(Sqrt2Conj(y)))
  }

  /** The numerator is x times the cofactor, and y times its cofactor is Norm(y). */
  lemma CofactorProduct(x: ZW, y: ZW)
    ensures Numerator(x, y) == Mul(x, Cofactor(y))
    ensures Mul(y, Cofactor(y)) == FromInt(Norm(y))
  {
    var c, s, t := Conj(y), Sqrt2Conj(y), Conj(Sqrt2Conj(y));
    MulAssoc(x, c, s);
    MulAssoc(x, Mul(c, s), t);
    MulAssoc(y, c, s);
    MulAssoc(y, Mul(c, s), t);
  }

  /** `x // y`: each coordinate of the numerator floor-divided by Norm(y). */
  function FloorDiv(x: ZW, y: ZW): ZW
    requires y != Zero
  {
    NormZero(y);
    var z := Numerator(x, y);
    var n := Norm(y);
    ZW(z.c0 / n, z.c1 / n, z.c2 / n, z.c3 / n)
  }

  /** `x.is_divisible_by(y)`: every coordinate of the numerator is a multiple of Norm(y). */
  function IsDivisibleBy(x: ZW, y: ZW): bool
    requires y != Zero
  {
    NormZero(y);
    var z := Numerator(x, y);
    var n := Norm(y);
    z.c0 % n == 0 && z.c1 % n == 0 && z.c2 % n == 0 && z.c3 % n == 0
  }

  ghost predicate Divides(g: ZW, x: ZW) {
    exists q :: Mul(q, g) == x
  }

  /** The division test decides ring divisibility, and then `//` is the exact quotient. */
  lemma IsDivisibleByDecidesDivides(x: ZW, y: ZW)
    requires y != Zero
    ensures IsDivisibleBy(x, y) <==> Divides(y, x)
    ensures IsDivisibleBy(x, y) ==> Mul(FloorDiv(x, y), y) == x
  {
    if IsDivisibleBy(x, y) {
      FloorDivExact(x, y);
    }
    if Divides(y, x) {
      var q :| Mul(q, y) == x;
      MultipleIsDivisible(q, y);
    }
  }

  lemma FloorDivExact(x: ZW, y: ZW)
    requires y != Zero && IsDivisibleBy(x, y)
    ensures Mul(FloorDiv(x, y), y) == x
  {
    NormZero(y);
    var n := Norm(y);
    var q := FloorDiv(x, y);
    var z := Numerator(x, y);
    Z2.ExactIntDiv(z.c0, n);
    Z2.ExactIntDiv(z.c1, n);
    Z2.ExactIntDiv(z.c2, n);
    Z2.ExactIntDiv(z.c3, n);
    assert z == Scale(q, n);
    // (q*y)*cofactor == q*norm == z == x*cofactor
    CofactorProduct(x, y);
    MulAssoc(q, y, Cofactor(y));
    MulFromInt(q, n);
    CancelCofactor(Mul(q, y), x, y);
  }

  lemma MultipleIsDivisible(q: ZW, y: ZW)
    requires y != Zero
    ensures IsDivisibleBy(Mul(q, y), y)
  {
    NormZero(y);
    var n := Norm(y);
    CofactorProduct(Mul(q, y), y);
    MulAssoc(q, y, Cofactor(y));
    MulFromInt(q, n);
    Z2.MultipleMod(q.c0, n);
    Z2.MultipleMod(q.c1, n);
    Z2.MultipleMod(q.c2, n);
    Z2.MultipleMod(q.c3, n);
  }

  /** u * cofactor(y) == x * cofactor(y) with y != 0 gives u == x. */
  lemma CancelCofactor(u: ZW, x: ZW, y: ZW)
    requires y != Zero
    requires Mul(u, Cofactor(y)) == Mul(x, Cofactor(y))
    ensures u == x
  {
    NormZero(y);
    var cf := Cofactor(y);
    var d := Sub(u, x);
    MulComm(u, cf);
    MulComm(x, cf);
    MulAddDistrib(cf, u, x);
    MulComm(cf, d);
    assert Mul(d, cf) == Zero;
    MulAssoc(d, cf, y);
    MulComm(cf, y);
    CofactorProduct(x, y);
    MulFromInt(d, Norm(y));
    assert Scale(d, Norm(y)) == Zero;
    CancelPositive(d.c0, Norm(y));
    CancelPositive(d.c1, Norm(y));
    CancelPositive(d.c2, Norm(y));
    CancelPositive(d.c3, Norm(y));
  }

  lemma CancelPositive(a: int, n: int)
    requires n > 0 && a * n == 0
    ensures a == 0
  {
    Z2.MulSign(a, n);
  }

  // ---------------------------------------------------------------------------------
  // Powers

  function Pow(x: ZW, p: nat): ZW {
    if p == 0 then One else Mul(x, Pow(x, p - 1))
  }

  lemma {:induction false} PowAdd(x: ZW, p: nat, q: nat)
    ensures Pow(x, p + q) == Mul(Pow(x, p), Pow(x, q))
  {
    if p == 0 {
      MulOne(Pow(x, q));
    } else {
      PowAdd(x, p - 1, q);
      MulAssoc(x, Pow(x, p - 1), Pow(x, q));
    }
  }

  lemma {:induction false} PowSquare(x: ZW, k: nat)
    ensures Pow(Mul(x, x), k) == Pow(x, 2 * k)
  {
    if k > 0 {
      PowSquare(x, k - 1);
      PowAdd(x, 2, 2 * k - 2);
      assert Pow(x, 2) == Mul(x, x) by {
        assert Pow(x, 1) == Mul(x, One);
        MulOne(x);
      }
    }
  }

  lemma PowStep(base: ZW, e: nat, y: ZW)
    requires e > 1
    ensures Mul(Pow(base, e), y)
         == Mul(Pow(Mul(base, base), e / 2), if e % 2 == 1 then Mul(y, base) else y)
  {
    PowSquare(base, e / 2);
    if e % 2 == 1 {
      PowAdd(base, 2 * (e / 2), 1);
      assert Pow(base, 1) == base by { MulOne(base); }
      MulAssoc(Pow(base, 2 * (e / 2)), base, y);
      MulComm(base, y);
    }
  }

  datatype PowError = NegativeExponent

  /** `__pow__`: ValueError for a negative exponent, otherwise binary exponentiation. */
  method Power(x: ZW, exponent: int) returns (r: Result<ZW, PowError>)
    ensures exponent < 0 ==> r == Err(NegativeExponent)
    ensures exponent >= 0 ==> r == Ok(Pow(x, exponent))
  {
    if exponent < 0 {
      return Err(NegativeExponent);
    }
    if exponent == 0 {
      return Ok(One);
    }
    var other := One;
    var cur := x;
    var e := exponent;
    MulOne(Pow(x, exponent));
    while e > 1
      invariant e >= 1
      invariant Pow(x, exponent) == Mul(Pow(cur, e), other)
      decreases e
    {
      PowStep(cur, e, other);
      if e % 2 == 1 {
        other := Mul(other, cur);
      }
      cur := Mul(cur, cur);
      e := e / 2;
    }
    assert Pow(cur, 1) == cur by { MulOne(cur); }
    return Ok(Mul(cur, other));
  }

  // ---------------------------------------------------------------------------------
  // Greatest common divisor

  ghost predicate IsGcd(g: ZW, x: ZW, y: ZW) {
    Divides(g, x) && Divides(g, y) &&
    exists u, v :: g == Add(Mul(u, x), Mul(v, y))
  }

  /** A gcd is a multiple of every common divisor. */
  lemma GcdIsGreatest(g: ZW, x: ZW, y: ZW, h: ZW)
    requires IsGcd(g, x, y) && Divides(h, x) && Divides(h, y)
    ensures Divides(h, g)
  {
    var u, v :| g == Add(Mul(u, x), Mul(v, y));
    var p :| Mul(p, h) == x;
    var q :| Mul(q, h) == y;
    MulAssoc(u, p, h);
    MulAssoc(v, q, h);
    MulComm(h, Mul(u, p));
    MulComm(h, Mul(v, q));
    MulAddDistrib(h, Mul(u, p), Mul(v, q));
    MulComm(h, Add(Mul(u, p), Mul(v, q)));
    assert Mul(Add(Mul(u, p), Mul(v, q)), h) == g;
  }

  /** Multiplication by a nonzero element is injective. */
  lemma MulCancel(s: ZW, t: ZW, g: ZW)
    requires g != Zero && Mul(s, g) == Mul(t, g)
    ensures s == t
  {
    NormZero(g);
    var cf := Cofactor(g);
    CofactorProduct(s, g);
    MulAssoc(s, g, cf);
    MulAssoc(t, g, cf);
    MulFromInt(s, Norm(g));
    MulFromInt(t, Norm(g));
    assert Scale(s, Norm(g)) == Scale(t, Norm(g));
    CancelPositive(s.c0 - t.c0, Norm(g));
    CancelPositive(s.c1 - t.c1, Norm(g));
    CancelPositive(s.c2 - t.c2, Norm(g));
    CancelPositive(s.c3 - t.c3, Norm(g));
  }

  /**
   * Dividing x and y by a nonzero gcd leaves coprime quotients: 1 is a gcd of x/g and y/g,
   * so every common divisor of the quotients is a unit.
   */
  lemma QuotientsCoprime(g: ZW, x: ZW, y: ZW, p: ZW, q: ZW)
    requires IsGcd(g, x, y) && g != Zero && Mul(p, g) == x && Mul(q, g) == y
    ensures IsGcd(One, p, q)
  {
    var u, v :| g == Add(Mul(u, x), Mul(v, y));
    MulAssoc(u, p, g);
    MulAssoc(v, q, g);
    MulComm(g, Mul(u, p));
    MulComm(g, Mul(v, q));
    MulAddDistrib(g, Mul(u, p), Mul(v, q));
    MulComm(g, Add(Mul(u, p), Mul(v, q)));
    MulOne(g);
    MulCancel(Add(Mul(u, p), Mul(v, q)), One, g);
    MulOne(p);
    MulOne(q);
  }

  /** A gcd of coprime elements is a unit: its norm is 1, as test_gcd checks. */
  lemma GcdOfCoprimeIsUnit(h: ZW, p: ZW, q: ZW)
    requires IsGcd(h, p, q) && IsGcd(One, p, q)
    ensures Norm(h) == 1
  {
    NormOfOne(One);
    GcdsSameNorm(h, One, p, q);
  }

  /** Two gcds of the same pair divide each other, so they have the same norm. */
  lemma GcdsSameNorm(h: ZW, e: ZW, p: ZW, q: ZW)
    requires IsGcd(h, p, q) && IsGcd(e, p, q)
    ensures Norm(h) == Norm(e)
  {
    GcdIsGreatest(e, p, q, h);
    GcdIsGreatest(h, p, q, e);
    var c :| Mul(c, h) == e;
    var d :| Mul(d, e) == h;
    NormMultiplicative(c, h);
    NormMultiplicative(d, e);
    if Norm(e) != 0 {
      ProductOne(Norm(d), Norm(c), Norm(e));
      Z2.UnitFactor(Norm(d), Norm(c));
    }
  }

  /** m * (n * k) == k with k nonzero forces m * n == 1. */
  lemma ProductOne(m: nat, n: nat, k: nat)
    requires k != 0 && m * (n * k) == k
    ensures m * n == 1
  {
    assert (m * n) * k == 1 * k;
    CancelPositive(m * n - 1, k);
  }

  /** 1 is its own conjugate under both conjugations, so its norm is 1 * 1 * 1 * 1. */
  lemma NormOfOne(x: ZW)
    requires x == One
    ensures Norm(x) == 1
  {
    assert Conj(x) == x && Sqrt2Conj(x) == x;
    MulOne(x);
    assert NormProduct(x) == x;
  }


  /** A 2x2 matrix over Z[w], used as ghost bookkeeping of the gcd loop. */
  datatype Mat = Mat(p: ZW, q: ZW, r: ZW, s: ZW)

  function Identity(): Mat { Mat(One, Zero, Zero, One) }

  function Lin(u: ZW, x: ZW, v: ZW, y: ZW): ZW { Add(Mul(u, x), Mul(v, y)) }

  /** (x0, y0) == m (x, y) and (x, y) == k (x0, y0). */
  ghost predicate Tracks(x0: ZW, y0: ZW, x: ZW, y: ZW, m: Mat, k: Mat) {
    x0 == Lin(m.p, x, m.q, y) && y0 == Lin(m.r, x, m.s, y) &&
    x == Lin(k.p, x0, k.q, y0) && y == Lin(k.r, x0, k.s, y0)
  }

  function SwapColumns(m: Mat): Mat { Mat(m.q, m.p, m.s, m.r) }

  function SwapRows(k: Mat): Mat { Mat(k.r, k.s, k.p, k.q) }

  function StepM(m: Mat, r: ZW): Mat { Mat(Add(m.p, Mul(m.q, r)), m.q, Add(m.r, Mul(m.s, r)), m.s) }

  function StepK(k: Mat, r: ZW): Mat { Mat(k.p, k.q, Sub(k.r, Mul(r, k.p)), Sub(k.s, Mul(r, k.q))) }

  lemma TracksInit(x0: ZW, y0: ZW)
    ensures Tracks(x0, y0, x0, y0, Identity(), Identity())
  {
    MulOne(x0);
    MulOne(y0);
    TimesZero(x0);
    TimesZero(y0);
  }

  /** 0 * w == 0 and w * 0 == 0. */
  lemma TimesZero(w: ZW)
    ensures Mul(Zero, w) == Zero && Mul(w, Zero) == Zero
  {
    ConvolveScale(w.c0, w.c1, w.c2, w.c3, 0);
    ConvolveComm(w.c0, w.c1, w.c2, w.c3, 0, 0, 0, 0);
  }

  lemma TracksSwap(x0: ZW, y0: ZW, x: ZW, y: ZW, m: Mat, k: Mat)
    requires Tracks(x0, y0, x, y, m, k)
    ensures Tracks(x0, y0, y, x, SwapColumns(m), SwapRows(k))
  {
    AddComm(Mul(m.p, x), Mul(m.q, y));
    AddComm(Mul(m.r, x), Mul(m.s, y));
  }

  /** With yOld == y + r*x: m0*x + m1*yOld == (m0 + m1*r)*x + m1*y. */
  lemma Reassociate(m0: ZW, m1: ZW, x: ZW, yOld: ZW, y: ZW, r: ZW)
    requires y == Sub(yOld, Mul(r, x))
    ensures Add(Mul(m0, x), Mul(m1, yOld)) == Add(Mul(Add(m0, Mul(m1, r)), x), Mul(m1, y))
  {
    assert yOld == Add(y, Mul(r, x));
    MulAddDistrib(m1, y, Mul(r, x));
    MulAssoc(m1, r, x);
    MulComm(x, m0);
    MulComm(x, Mul(m1, r));
    MulAddDistrib(x, m0, Mul(m1, r));
    MulComm(x, Add(m0, Mul(m1, r)));
  }

  /** With x == n00*x0 + n01*y0 and yOld == n10*x0 + n11*y0, the new row of k. */
  lemma RowUpdate(n00: ZW, n01: ZW, n10: ZW, n11: ZW, x0: ZW, y0: ZW, r: ZW, x: ZW, yOld: ZW)
    requires x == Add(Mul(n00, x0), Mul(n01, y0)) && yOld == Add(Mul(n10, x0), Mul(n11, y0))
    ensures Sub(yOld, Mul(r, x))
         == Add(Mul(Sub(n10, Mul(r, n00)), x0), Mul(Sub(n11, Mul(r, n01)), y0))
  {
    MulAddDistrib(r, Mul(n00, x0), Mul(n01, y0));
    MulAssoc(r, n00, x0);
    MulAssoc(r, n01, y0);
    MulComm(x0, n10);
    MulComm(x0, Mul(r, n00));
    MulAddDistrib(x0, n10, Mul(r, n00));
    MulComm(x0, Sub(n10, Mul(r, n00)));
    MulComm(y0, n11);
    MulComm(y0, Mul(r, n01));
    MulAddDistrib(y0, n11, Mul(r, n01));
    MulComm(y0, Sub(n11, Mul(r, n01)));
  }

  lemma TracksStep(x0: ZW, y0: ZW, x: ZW, y: ZW, r: ZW, m: Mat, k: Mat)
    requires Tracks(x0, y0, x, y, m, k)
    ensures Tracks(x0, y0, x, Sub(y, Mul(r, x)), StepM(m, r), StepK(k, r))
  {
    var y1 := Sub(y, Mul(r, x));
    Reassociate(m.p, m.q, x, y, y1, r);
    Reassociate(m.r, m.s, x, y, y1, r);
    RowUpdate(k.p, k.q, k.r, k.s, x0, y0, r, x, y);
  }

  lemma TracksAtZero(x0: ZW, y0: ZW, x: ZW, y: ZW, m: Mat, k: Mat)
    requires x == Zero && Tracks(x0, y0, x, y, m, k)
    ensures IsGcd(y, x0, y0)
  {
    TimesZero(m.p);
    TimesZero(m.r);
    assert Mul(m.q, y) == x0;
    assert Mul(m.s, y) == y0;
    assert y == Add(Mul(k.r, x0), Mul(k.s, y0));
  }

  /** The 16 offsets {0,1}^4 in the order of itertools.product. */
  function Offsets(): (s: seq<ZW>)
    ensures |s| == 16
  {
    seq(16, n requires 0 <= n < 16 => ZW(n / 8, (n / 4) % 2, (n / 2) % 2, n % 2))
  }

  /**
   * The inner loop of `gcd`: starting from (Norm(y), y), keep the first candidate
   * y - (c + offset) * x whose norm is smaller than the best so far.
   */
  method Candidates(x: ZW, y: ZW, c: ZW) returns (bestNorm: nat, best: ZW, ghost r: ZW)
    ensures best == Sub(y, Mul(r, x)) && bestNorm == Norm(best)
    ensures bestNorm <= Norm(y)
    ensures forall i :: 0 <= i < 16 ==> bestNorm <= Norm(Sub(y, Mul(Add(c, Offsets()[i]), x)))
  {
    var offsets := Offsets();
    bestNorm := Norm(y);
    best := y;
    r := Zero;
    TimesZero(x);
    var k := 0;
    while k < 16
      invariant 0 <= k <= 16
      invariant bestNorm == Norm(best) && best == Sub(y, Mul(r, x)) && bestNorm <= Norm(y)
      invariant forall i :: 0 <= i < k ==> bestNorm <= Norm(Sub(y, Mul(Add(c, offsets[i]), x)))
    {
      var cand := Add(c, offsets[k]);
      var ny := Sub(y, Mul(cand, x));
      if Norm(ny) < bestNorm {
        bestNorm := Norm(ny);
        best := ny;
        r := cand;
      }
      k := k + 1;
    }
  }

  /**
   * `gcd`: the Euclidean loop with 16 rounding candidates. None stands for the source's
   * AssertionError when no candidate lowers the norm; otherwise the result is a gcd.
   */
  method Gcd(x0: ZW, y0: ZW) returns (g: Option<ZW>)
    ensures g.Some? ==> IsGcd(g.value, x0, y0)
  {
    var x, y := x0, y0;
    ghost var m, k := Identity(), Identity();
    TracksInit(x0, y0);
    while true
      invariant Tracks(x0, y0, x, y, m, k)
      decreases Norm(x) + Norm(y)
    {
      if Norm(x) > Norm(y) {
        TracksSwap(x0, y0, x, y, m, k);
        x, y := y, x;
        m, k := SwapColumns(m), SwapRows(k);
      }
      if x == Zero {
        break;
      }
      var c := FloorDiv(y, x);
      var bestNorm, best, r := Candidates(x, y, c);
      if !(bestNorm < Norm(y)) {
        return None;
      }
      TracksStep(x0, y0, x, y, r, m, k);
      y := best;
      m, k := StepM(m, r), StepK(k, r);
    }
    TracksAtZero(x0, y0, x, y, m, k);
    g := Some(y);
  }
}
