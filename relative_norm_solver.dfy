/**
 * `solve` of CliffordTRelativeNormSolver in
 * qualtran/rotation_synthesis/relative_norm/clifford_t.py: given r in Z[sqrt 2], find v in Z[w]
 * with v * conj(v) == r (Algorithm 2 of arXiv:2203.10064).
 */
module RelativeNormSolver {
  import opened Wrappers
  import Z2 = ZSqrt2Ring
  import W = ZOmegaRing
  import PyInt
  import opened RelativeNorm
  import opened RelativeNormIdeals

  datatype SolveError =
    | GcdFailed            // the AssertionError of gcd
    | NormNotAboveOne(index: nat)   // the assertion mag > 1 of factor_into_generators
    | NotAPellNumber(target: nat)   // the assertion b == target of compute_w

  /**
   * `solve(r)`, with the factorisation sympy supplies as input: factorisation lists, for each
   * prime p dividing the norm of r, the prime ideals factor_prime(p) of Z[w] above it.
   * The ghost `unit` is the remainder factor_into_generators leaves (see Remainder). As
   * written, compute_w answers 1 for the remainder -1, so solve(-1) returns 1 although no
   * v has v * conj(v) == -1 (ComputeWMinusOne); a solution is exact whenever the remainder
   * is a positive unit. SolveChecked is the solver with the sign check.
   */
  method Solve(r: Z2.ZSqrt2, factorisation: seq<(int, seq<W.ZW>)>, isPrimeIdeal: Z2.ZSqrt2 -> bool)
    returns (res: Result<Option<W.ZW>, SolveError>, ghost unit: Z2.ZSqrt2)
    ensures r == Z2.Zero ==> res == Ok(Some(W.Zero))
    ensures r == Z2.One ==> res == Ok(Some(W.One))
    ensures res.Ok? && r != Z2.Zero && r != Z2.One ==> Remainder(unit, r, factorisation, isPrimeIdeal)
    ensures res.Ok? && res.value.Some? && Z2.Norm(unit) == 1 && unit.a >= 0 ==> W.AbsSquared(res.value.value) == r
    ensures r == Z2.ZSqrt2(-1, 0) && factorisation == [] ==> res == Ok(Some(W.One))
  {
    if r == Z2.ZSqrt2(-1, 0) {
      assert r != Z2.One && r != Z2.Zero;
    }
    if r == Z2.Zero {
      return Ok(Some(W.Zero)), r;
    }
    if r == Z2.One {
      res, unit := Ok(Some(W.One)), r;
      OneIsExact(res.value.value, r);
      return;
    }
    res, unit := SolveFactored(r, factorisation, isPrimeIdeal, false);
  }

  /**
   * solve with compute_w refusing negative units: every solution it returns for a unit
   * remainder is exact, -1 included.
   */
  method SolveChecked(r: Z2.ZSqrt2, factorisation: seq<(int, seq<W.ZW>)>, isPrimeIdeal: Z2.ZSqrt2 -> bool)
    returns (res: Result<Option<W.ZW>, SolveError>, ghost unit: Z2.ZSqrt2)
    ensures r == Z2.Zero ==> res == Ok(Some(W.Zero))
    ensures r == Z2.One ==> res == Ok(Some(W.One))
    ensures res.Ok? && r != Z2.Zero && r != Z2.One ==> Remainder(unit, r, factorisation, isPrimeIdeal)
    ensures res.Ok? && res.value.Some? && Z2.Norm(unit) == 1 ==> W.AbsSquared(res.value.value) == r
    ensures r == Z2.ZSqrt2(-1, 0) && factorisation == [] ==> res == Ok(None)
  {
    if r == Z2.ZSqrt2(-1, 0) {
      assert r != Z2.One && r != Z2.Zero;
    }
    if r == Z2.Zero {
      return Ok(Some(W.Zero)), r;
    }
    if r == Z2.One {
      res, unit := Ok(Some(W.One)), r;
      OneIsExact(res.value.value, r);
      return;
    }
    res, unit := SolveFactored(r, factorisation, isPrimeIdeal, true);
  }

  /**
   * u is what factor_into_generators leaves of r: for the ideal descriptions of the
   * factorisation and some exponents, r == u * prod eta_i^e_i and no eta divides u.
   */
  ghost predicate Remainder(u: Z2.ZSqrt2, r: Z2.ZSqrt2, factorisation: seq<(int, seq<W.ZW>)>,
                            isPrimeIdeal: Z2.ZSqrt2 -> bool)
  {
    exists info: seq<IdealInfo>, e: seq<nat> {:trigger Product(Etas(info), e)} ::
      && |info| == |Flatten(factorisation)| && |e| == |info|
      && (forall j | 0 <= j < |info| :: info[j].ideal == Flatten(factorisation)[j])
      && (forall j | 0 <= j < |info| :: Describes(info[j], isPrimeIdeal))
      && Z2.Mul(u, Product(Etas(info), e)) == r && Maximal(u, Etas(info), |info|)
  }

  lemma RemainderOf(u: Z2.ZSqrt2, r: Z2.ZSqrt2, factorisation: seq<(int, seq<W.ZW>)>,
                    isPrimeIdeal: Z2.ZSqrt2 -> bool, info: seq<IdealInfo>, e: seq<nat>)
    requires |info| == |Flatten(factorisation)| && |e| == |info|
    requires forall j | 0 <= j < |info| :: info[j].ideal == Flatten(factorisation)[j]
    requires forall j | 0 <= j < |info| :: Describes(info[j], isPrimeIdeal)
    requires Z2.Mul(u, Product(Etas(info), e)) == r && Maximal(u, Etas(info), |info|)
    ensures Remainder(u, r, factorisation, isPrimeIdeal)
  {
  }

  lemma OneIsExact(v: W.ZW, r: Z2.ZSqrt2)
    requires v == W.One && r == Z2.One
    ensures W.AbsSquared(v) == r
  {
    SpecialCasesExact();
  }

  /** The answers to the special cases 0 and 1 are exact. */
  lemma SpecialCasesExact()
    ensures W.AbsSquared(W.Zero) == Z2.Zero && W.AbsSquared(W.One) == Z2.One
  {
    AbsSquaredZero(0);
    AbsSquaredOne(1);
  }

  /** solve past its two special cases, with compute_w as written (checked false) or with its
      sign check (checked true). */
  method SolveFactored(r: Z2.ZSqrt2, factorisation: seq<(int, seq<W.ZW>)>, isPrimeIdeal: Z2.ZSqrt2 -> bool,
                       checked: bool)
    returns (res: Result<Option<W.ZW>, SolveError>, ghost unit: Z2.ZSqrt2)
    requires r != Z2.Zero
    ensures res.Ok? ==> Remainder(unit, r, factorisation, isPrimeIdeal)
    ensures res.Ok? && res.value.Some? && Z2.Norm(unit) == 1 && (checked || unit.a >= 0) ==>
              W.AbsSquared(res.value.value) == r
    ensures r == Z2.ZSqrt2(-1, 0) && factorisation == [] ==> res == Ok(if checked then None else Some(W.One))
  {
    var factored := Factor(r, factorisation, isPrimeIdeal);
    if factored.Err? {
      return Err(factored.error), r;
    }
    var (info, u, exponents) := factored.value;
    unit := u;
    RemainderOf(u, r, factorisation, isPrimeIdeal, info, exponents);
    res := SolveUnit(r, u, info, exponents, checked);
  }

  /** The ideal descriptions of the factorisation and factor_into_generators over their etas. */
  method Factor(r: Z2.ZSqrt2, factorisation: seq<(int, seq<W.ZW>)>, isPrimeIdeal: Z2.ZSqrt2 -> bool)
    returns (res: Result<(seq<IdealInfo>, Z2.ZSqrt2, seq<nat>), SolveError>)
    requires r != Z2.Zero
    ensures res.Ok? ==>
      var (info, u, e) := res.value;
      && |info| == |Flatten(factorisation)| && |e| == |info| && SplitEtas(info)
      && (forall j | 0 <= j < |info| :: info[j].ideal == Flatten(factorisation)[j])
      && (forall j | 0 <= j < |info| :: Describes(info[j], isPrimeIdeal))
      && Z2.Mul(u, Product(Etas(info), e)) == r && Maximal(u, Etas(info), |info|)
    ensures r == Z2.ZSqrt2(-1, 0) && factorisation == [] ==> res == Ok(([], r, []))
  {
    var infos := IdealInfos(factorisation, isPrimeIdeal);
    if infos.None? {
      return Err(GcdFailed);
    }
    var info := infos.value;
    var f := FactorIntoGenerators(r, Etas(info));
    if f.Err? {
      return Err(NormNotAboveOne(f.error));
    }
    return Ok((info, f.value.0, f.value.1));
  }

  /** The rest of solve once r == u * prod eta_i^e_i: compute_w(u), then the last loop. */
  method SolveUnit(ghost r: Z2.ZSqrt2, u: Z2.ZSqrt2, info: seq<IdealInfo>, exponents: seq<nat>, checked: bool)
    returns (res: Result<Option<W.ZW>, SolveError>)
    requires |exponents| == |info| && SplitEtas(info)
    requires Z2.Mul(u, Product(Etas(info), exponents)) == r
    ensures res.Ok? && res.value.Some? && Z2.Norm(u) == 1 && (checked || u.a >= 0) ==>
              W.AbsSquared(res.value.value) == r
    ensures u == Z2.ZSqrt2(-1, 0) && info == [] ==> res == Ok(if checked then None else Some(W.One))
  {
    var cw;
    if checked {
      cw := ComputeWChecked(u);
    } else {
      cw := ComputeW(u);
    }
    if u == Z2.ZSqrt2(-1, 0) {
      ComputeWMinusOne();
      assert cw == Ok(if checked then WOfExponentChecked(u, 0) else WOfExponent(u, 0));
    }
    if cw.Err? {
      return Err(NotAPellNumber(cw.error));
    }
    if cw.value.None? {
      return Ok(None);
    }
    var w := cw.value.value;
    ghost var n :| Pell(n) == PyInt.Abs(u.b);
    if Z2.Norm(u) == 1 && (checked || u.a >= 0) {
      WOfExponentCheckedSound(u, n);
      assert W.AbsSquared(w) == u;
    }
    var m := Assemble(w, info, exponents);
    if m.None? {
      return Ok(None);
    }
    return Ok(m);
  }

  /**
   * The last loop of solve: m starts at w and takes the factor eta^(e/2) for each inert ideal
   * and chi^e for each split one. It gives up (None) exactly when an inert ideal has an odd
   * exponent; otherwise m * conj(m) == w * conj(w) * prod eta_i^e_i.
   */
  method Assemble(w: W.ZW, info: seq<IdealInfo>, exponents: seq<nat>) returns (r: Option<W.ZW>)
    requires |exponents| == |info| && SplitEtas(info)
    ensures r.None? <==> exists i | 0 <= i < |info| :: OddInert(info[i], exponents[i])
    ensures r.Some? ==> W.AbsSquared(r.value) == Z2.Mul(W.AbsSquared(w), Product(Etas(info), exponents))
    ensures info == [] ==> r == Some(w)
  {
    var etas := Etas(info);
    ghost var base := W.AbsSquared(w);
    var m := w;
    Z2.MulOne(base);
    for k := 0 to |info|
      invariant W.AbsSquared(m) == Z2.Mul(base, ProductUpTo(etas, exponents, k))
      invariant forall i | 0 <= i < k :: !OddInert(info[i], exponents[i])
      invariant k == 0 ==> m == w
    {
      var next := AssembleNext(m, base, info, exponents, k);
      if next.None? {
        return None;
      }
      m := next.value;
    }
    ProductIsUpTo(etas, exponents);
    return Some(m);
  }

  /** One pass of the last loop of solve, stated against the running product of the factors. */
  method AssembleNext(m: W.ZW, ghost base: Z2.ZSqrt2, info: seq<IdealInfo>, exponents: seq<nat>, k: nat)
    returns (next: Option<W.ZW>)
    requires |exponents| == |info| && SplitEtas(info) && k < |info|
    requires W.AbsSquared(m) == Z2.Mul(base, ProductUpTo(Etas(info), exponents, k))
    ensures next.None? <==> OddInert(info[k], exponents[k])
    ensures next.Some? ==> W.AbsSquared(next.value) == Z2.Mul(base, ProductUpTo(Etas(info), exponents, k + 1))
  {
    var etas := Etas(info);
    ghost var prod := ProductUpTo(etas, exponents, k);
    next := AssembleOne(m, info[k], exponents[k]);
    if next.Some? {
      Z2.MulAssoc(base, prod, Z2.Pow(etas[k], exponents[k]));
    }
  }
}
