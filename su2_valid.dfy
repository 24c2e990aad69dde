/**
 * The validity test of scaled SU(2) Clifford+T matrices (`is_valid` of
 * qualtran/rotation_synthesis/matrix/su2_ct.py): the determinant must be 2 (2 + sqrt 2)^k and
 * the first column must agree on whether it needs w.
 */
module SU2Validity {
  import opened Wrappers
  import Z2 = ZSqrt2Ring
  import W = ZOmegaRing
  import opened SU2CliffordT
  import G = SU2Gates

  /** `two` of is_valid. */
  const Two := Z2.ZSqrt2(2, 0)

  // ---------------------------------------------------------------------------------
  // Dividing the determinant by 2 + sqrt 2

  /** A quotient by 2 + sqrt 2 has half the norm, so the loop of is_valid terminates. */
  lemma QuotientNorm(d: Z2.ZSqrt2)
    requires Z2.Gt(d, Two) && LambdaDividesZ2(d)
    ensures Z2.Norm(LambdaQuotientZ2(d)) < Z2.Norm(d)
  {
    var q := LambdaQuotientZ2(d);
    var m := d.a / 2;
    assert d.a == 2 * m;
    assert q == Z2.ZSqrt2(2 * m - d.b, d.b - m);
    assert Z2.SignedNorm(d) == 2 * Z2.SignedNorm(q);
    Z2.NormZero(d);
    assert d != Z2.Zero;
  }

  /** The determinant left once `det // l_v` has been applied while det > 2 and l_v divides it. */
  function Reduce(d: Z2.ZSqrt2): Z2.ZSqrt2
    decreases Z2.Norm(d)
  {
    if Z2.Gt(d, Two) && LambdaDividesZ2(d) then
      QuotientNorm(d);
      Reduce(LambdaQuotientZ2(d))
    else
      d
  }

  /** `to_zsqrt2()[2]`: whether the entry needs w. */
  predicate NeedsW(x: ZW) { W.ToZSqrt2(x).2 }

  /**
   * `is_valid()`: the determinant reduces to 2 and the entries of the first column both need w
   * or both do not. None when `det()` fails its assertions.
   */
  function IsValidSpec(g: SU2): Option<bool> {
    match Det(g)
    case None => None
    case Some(d) => Some(Reduce(d) == Two && NeedsW(g.m.a) == NeedsW(g.m.c))
  }

  /** `is_valid()`, with the loop of the source. */
  method IsValid(g: SU2) returns (r: Option<bool>)
    ensures r == IsValidSpec(g)
  {
    var d0 := Det(g);
    if d0.None? {
      return None;
    }
    var det := d0.value;
    var lv := Z2.ZSqrt2(2, 1);
    var two := Z2.ZSqrt2(2, 0);
    Z2LambdaDivision(det, 1);
    while Z2.Gt(det, two) && Z2.IsDivisibleBy(det, lv)
      invariant Reduce(det) == Reduce(d0.value)
      invariant Z2.IsDivisibleBy(det, lv) <==> LambdaDividesZ2(det)
      invariant LambdaDividesZ2(det) ==> Z2.FloorDiv(det, lv) == LambdaQuotientZ2(det)
      decreases Z2.Norm(det)
    {
      QuotientNorm(det);
      det := Z2.FloorDiv(det, lv);
      Z2LambdaDivision(det, 1);
    }
    if det != two {
      return Some(false);
    }
    var n0 := W.ToZSqrt2(g.m.a).2;
    var n1 := W.ToZSqrt2(g.m.c).2;
    return Some(n0 == n1);
  }

  // ---------------------------------------------------------------------------------
  // What the test accepts

  lemma QuotientOfMultiple(x: Z2.ZSqrt2)
    ensures LambdaDividesZ2(Z2.Mul(x, Z2.LambdaKliuchnikov))
    ensures LambdaQuotientZ2(Z2.Mul(x, Z2.LambdaKliuchnikov)) == x
  {}

  lemma QuotientTimesLambda(d: Z2.ZSqrt2)
    requires LambdaDividesZ2(d)
    ensures Z2.Mul(LambdaQuotientZ2(d), Z2.LambdaKliuchnikov) == d
  {
    assert d.a == 2 * (d.a / 2);
  }

  lemma ScaleMulLambda(p: Z2.ZSqrt2)
    ensures Z2.Scale(Z2.Mul(Z2.LambdaKliuchnikov, p), 2) == Z2.Mul(Z2.Scale(p, 2), Z2.LambdaKliuchnikov)
  {}

  /** 2 (2 + sqrt 2)^k is 2 (2 + sqrt 2)^(k-1) times 2 + sqrt 2. */
  lemma DetAfterStep(k: nat)
    requires k >= 1
    ensures G.DetAfter(k) == Z2.Mul(G.DetAfter(k - 1), Z2.LambdaKliuchnikov)
  {
    ScaleMulLambda(Z2.Pow(Z2.LambdaKliuchnikov, k - 1));
  }

  lemma {:induction false} PowLambdaNonnegative(k: nat)
    ensures Z2.Pow(Z2.LambdaKliuchnikov, k).a >= 1 && Z2.Pow(Z2.LambdaKliuchnikov, k).b >= 0
  {
    if k > 0 {
      PowLambdaNonnegative(k - 1);
    }
  }

  lemma AboveTwo(d: Z2.ZSqrt2)
    requires d.a > 2 && d.b > 0
    ensures Z2.Gt(d, Two)
  {}

  /** After at least one T gate the determinant exceeds 2 and 2 + sqrt 2 divides it. */
  lemma DetAfterAboveTwo(k: nat)
    requires k >= 1
    ensures Z2.Gt(G.DetAfter(k), Two) && LambdaDividesZ2(G.DetAfter(k))
  {
    DetAfterCoordinates(k);
    AboveTwo(G.DetAfter(k));
  }

  lemma DetAfterCoordinates(k: nat)
    requires k >= 1
    ensures G.DetAfter(k).a >= 4 && G.DetAfter(k).b >= 2 && G.DetAfter(k).a % 2 == 0
  {
    var p := Z2.Pow(Z2.LambdaKliuchnikov, k - 1);
    PowLambdaNonnegative(k - 1);
    assert G.DetAfter(k) == Z2.ZSqrt2(2 * (2 * p.a + 2 * p.b), 2 * (p.a + 2 * p.b));
  }

  lemma ReduceBelow(d: Z2.ZSqrt2)
    requires !Z2.Gt(d, Two)
    ensures Reduce(d) == d
  {}

  lemma NotAboveTwo(d: Z2.ZSqrt2)
    requires d == Two
    ensures !Z2.Gt(d, Two)
  {}

  lemma ReduceStep(d: Z2.ZSqrt2)
    requires Z2.Gt(d, Two) && LambdaDividesZ2(d)
    ensures Reduce(d) == Reduce(LambdaQuotientZ2(d))
  {}

  /** The loop of is_valid brings 2 (2 + sqrt 2)^k down to 2. */
  lemma ReduceDetAfter(k: nat)
    ensures Reduce(G.DetAfter(k)) == Two
  {
    var j := 0;
    ReduceNoT(j);
    while j < k
      invariant j <= k && Reduce(G.DetAfter(j)) == Two
    {
      j := j + 1;
      ReduceOneMoreT(j);
    }
  }

  lemma ReduceOneMoreT(k: nat)
    requires k >= 1 && Reduce(G.DetAfter(k - 1)) == Two
    ensures Reduce(G.DetAfter(k)) == Two
  {
    ReduceOneT(k);
  }

  /** One pass of the loop removes one factor 2 + sqrt 2. */
  lemma ReduceOneT(k: nat)
    requires k >= 1
    ensures Reduce(G.DetAfter(k)) == Reduce(G.DetAfter(k - 1))
  {
    DetAfterAboveTwo(k);
    ReduceStep(G.DetAfter(k));
    DetAfterStep(k);
    QuotientOfMultiple(G.DetAfter(k - 1));
  }

  lemma ReduceNoT(k: nat)
    requires k == 0
    ensures Reduce(G.DetAfter(k)) == Two
  {
    G.DetAfterZeroAt(k);
    NotAboveTwo(G.DetAfter(k));
    ReduceBelow(G.DetAfter(k));
  }

  /** Only the determinants 2 (2 + sqrt 2)^k reduce to 2. */
  lemma {:induction false} ReduceToTwo(d: Z2.ZSqrt2)
    requires Reduce(d) == Two
    ensures exists k: nat :: d == G.DetAfter(k)
    decreases Z2.Norm(d)
  {
    if Z2.Gt(d, Two) && LambdaDividesZ2(d) {
      var q := LambdaQuotientZ2(d);
      QuotientNorm(d);
      ReduceToTwo(q);
      var k: nat :| q == G.DetAfter(k);
      QuotientTimesLambda(d);
      DetAfterStep(k + 1);
      assert d == G.DetAfter(k + 1);
    } else {
      G.DetAfterZeroAt(0);
      assert d == G.DetAfter(0);
    }
  }

  /**
   * is_valid accepts exactly the matrices of determinant 2 (2 + sqrt 2)^k, for some k, whose
   * first column agrees on needing w; it fails exactly when det() does.
   */
  lemma ValidIff(g: SU2)
    ensures IsValidSpec(g).None? <==> Det(g).None?
    ensures IsValidSpec(g) == Some(true) <==>
      (exists k: nat :: Det(g) == Some(G.DetAfter(k))) && NeedsW(g.m.a) == NeedsW(g.m.c)
  {
    var d := Det(g);
    if d.Some? {
      ReduceIff(d.value);
      assert (exists k: nat :: d == Some(G.DetAfter(k))) <==> (exists k: nat :: d.value == G.DetAfter(k));
    }
  }

  /** The determinants the loop reduces to 2 are exactly the 2 (2 + sqrt 2)^k. */
  lemma ReduceIff(d: Z2.ZSqrt2)
    ensures Reduce(d) == Two <==> exists k: nat :: d == G.DetAfter(k)
  {
    if Reduce(d) == Two {
      ReduceToTwo(d);
    }
    if exists k: nat :: d == G.DetAfter(k) {
      var k: nat :| d == G.DetAfter(k);
      ReduceDetAfter(k);
    }
  }

  /** The entries of the first column of an admissible matrix agree on needing w. */
  lemma AdmissibleNeedsW(m: Mat)
    requires Admissible(m)
    ensures NeedsW(m.a) == NeedsW(m.c)
  {
    W.ToZSqrt2NeedsW(m.a);
    W.ToZSqrt2NeedsW(m.c);
  }

  /** An admissible matrix of determinant 2 (2 + sqrt 2)^k is valid. */
  lemma ValidFromDet(u: SU2, k: nat)
    requires Admissible(u.m) && Det(u) == Some(G.DetAfter(k))
    ensures IsValidSpec(u) == Some(true)
  {
    AdmissibleNeedsW(u.m);
    ReduceDetAfter(k);
  }

  /** Every product `from_sequence` builds from a well-formed table is valid. */
  lemma SequenceProductValid(t: G.GateTable, names: seq<string>)
    requires G.WellFormedTable(t) && G.AllKnown(names)
    ensures G.SequenceProduct(t, names).Some?
    ensures IsValidSpec(G.SequenceProduct(t, names).value) == Some(true)
  {
    G.SequenceProductDet(t, names);
    ValidFromDet(G.SequenceProduct(t, names).value, G.TCount(names));
  }
}
