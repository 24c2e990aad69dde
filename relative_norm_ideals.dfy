/**
 * The ideal bookkeeping of CliffordTRelativeNormSolver in
 * qualtran/rotation_synthesis/relative_norm/clifford_t.py: `_get_root`, the IdealInfo records
 * solve builds and the factor each of them contributes. The prime factorisation and the
 * primality test sympy supplies are inputs here.
 */
module RelativeNormIdeals {
  import opened Wrappers
  import Z2 = ZSqrt2Ring
  import W = ZOmegaRing
  import opened RelativeNorm

  // ---------------------------------------------------------------------------------
  // _get_root

  /**
   * v * chi needs no w, has no imaginary part and its real part is a prime ideal of Z[sqrt 2].
   * The primality test, which asks sympy, is the parameter isPrimeIdeal.
   */
  predicate MakesPrime(v: W.ZW, chi: W.ZW, isPrimeIdeal: Z2.ZSqrt2 -> bool) {
    var t := W.ToZSqrt2(W.Mul(v, chi));
    !t.2 && t.1 == Z2.Zero && isPrimeIdeal(t.0)
  }

  /** A root that makes chi prime makes it real: v * chi is the embedding of its real part. */
  lemma MakesPrimeReal(v: W.ZW, chi: W.ZW, isPrimeIdeal: Z2.ZSqrt2 -> bool)
    requires MakesPrime(v, chi, isPrimeIdeal)
    ensures W.Mul(v, chi) == W.Embed(W.ToZSqrt2(W.Mul(v, chi)).0)
  {
    W.FromPairToZSqrt2(W.Mul(v, chi));
  }

  /**
   * v is the first of base^0 .. base^3 that makes chi prime, and None exactly when none of
   * them does.
   */
  predicate FirstMakingPrime(v: Option<W.ZW>, chi: W.ZW, base: W.ZW, isPrimeIdeal: Z2.ZSqrt2 -> bool) {
    && (v.None? <==> forall k | 0 <= k < 4 :: !MakesPrime(W.Pow(base, k), chi, isPrimeIdeal))
    && (v.Some? ==> exists k | 0 <= k < 4 ::
      && v.value == W.Pow(base, k)
      && MakesPrime(v.value, chi, isPrimeIdeal)
      && (forall j | 0 <= j < k :: !MakesPrime(W.Pow(base, j), chi, isPrimeIdeal)))
  }

  /**
   * `_get_root(chi)`: the first of the roots 1, w, w^2, w^3 (the k-th is w^k) that makes chi
   * prime, or None when none does.
   */
  method GetRoot(chi: W.ZW, isPrimeIdeal: Z2.ZSqrt2 -> bool) returns (v: Option<W.ZW>)
    ensures FirstMakingPrime(v, chi, W.Omega, isPrimeIdeal)
  {
    v := FirstRoot(chi, W.Omega, isPrimeIdeal);
  }

  /** The loop of `_get_root` over the powers base^0 .. base^3. */
  method FirstRoot(chi: W.ZW, base: W.ZW, isPrimeIdeal: Z2.ZSqrt2 -> bool) returns (v: Option<W.ZW>)
    ensures FirstMakingPrime(v, chi, base, isPrimeIdeal)
  {
    for k := 0 to 4
      invariant forall j | 0 <= j < k :: !MakesPrime(W.Pow(base, j), chi, isPrimeIdeal)
    {
      var root := W.Pow(base, k);
      var t := W.ToZSqrt2(W.Mul(root, chi));
      if t.2 {
        continue;
      }
      if t.1 != Z2.Zero {
        continue;
      }
      if isPrimeIdeal(t.0) {
        assert MakesPrime(W.Pow(base, k), chi, isPrimeIdeal);
        assert !(forall j | 0 <= j < 4 :: !MakesPrime(W.Pow(base, j), chi, isPrimeIdeal));
        return Some(root);
      }
    }
    return None;
  }

  // ---------------------------------------------------------------------------------
  // solve

  /** `IdealInfo`: a prime ideal, its gcd chi with p, the generator eta of Z[sqrt 2] and whether it is inert. */
  datatype IdealInfo = IdealInfo(ideal: W.ZW, chi: W.ZW, eta: Z2.ZSqrt2, isInert: bool)

  /**
   * What solve records: an inert ideal has a root v with v * chi == eta, a split one has no
   * such root and eta == chi * conj(chi).
   */
  ghost predicate Describes(info: IdealInfo, isPrimeIdeal: Z2.ZSqrt2 -> bool) {
    if info.isInert then
      exists k | 0 <= k < 4 :: MakesPrime(W.Pow(W.Omega, k), info.chi, isPrimeIdeal) && W.Mul(W.Pow(W.Omega, k), info.chi) == W.Embed(info.eta)
    else
      (forall k | 0 <= k < 4 :: !MakesPrime(W.Pow(W.Omega, k), info.chi, isPrimeIdeal)) && info.eta == W.AbsSquared(info.chi)
  }

  lemma EmbedIsPair(z: Z2.ZSqrt2)
    ensures W.ToZSqrt2(W.Embed(z)).0 == z
  {
    assert W.Embed(z) == W.FromPair(z, Z2.Zero, false);
    W.ToZSqrt2FromPair(z, Z2.Zero, false);
  }

  /**
   * One pass of the inner loop of solve: chi = gcd(ideal, p), the root of chi, and eta. None
   * stands for the AssertionError of gcd.
   */
  method Info(ideal: W.ZW, p: int, isPrimeIdeal: Z2.ZSqrt2 -> bool) returns (r: Option<IdealInfo>)
    ensures r.Some? ==> r.value.ideal == ideal && W.IsGcd(r.value.chi, ideal, W.FromInt(p))
    ensures r.Some? ==> Describes(r.value, isPrimeIdeal)
  {
    var g := W.Gcd(ideal, W.FromInt(p));
    if g.None? {
      return None;
    }
    var chi := g.value;
    var v := GetRoot(chi, isPrimeIdeal);
    var eta: W.ZW;
    if v.None? {
      eta := W.Mul(chi, W.Conj(chi));
      EmbedIsPair(W.AbsSquared(chi));
    } else {
      eta := W.Mul(v.value, chi);
      MakesPrimeReal(v.value, chi, isPrimeIdeal);
    }
    return Some(IdealInfo(ideal, chi, W.ToZSqrt2(eta).0, v.Some?));
  }

  /** `[i.eta for i in info]`. */
  function Etas(info: seq<IdealInfo>): (r: seq<Z2.ZSqrt2>)
    ensures |r| == |info| && forall i | 0 <= i < |info| :: r[i] == info[i].eta
  {
    seq(|info|, i requires 0 <= i < |info| => info[i].eta)
  }

  /** The squared modulus of a power is the power of the squared modulus. */
  lemma {:induction false} AbsSquaredPow(x: W.ZW, e: nat)
    ensures W.AbsSquared(W.Pow(x, e)) == Z2.Pow(W.AbsSquared(x), e)
  {
    if e == 0 {
      AbsSquaredOne(1);
    } else {
      AbsSquaredPow(x, e - 1);
      W.AbsSquaredMultiplicative(x, W.Pow(x, e - 1));
    }
  }

  lemma AbsSquaredInt(c: int)
    ensures W.AbsSquared(W.ZW(c, 0, 0, 0)) == Z2.ZSqrt2(c * c, 0)
  {}

  lemma AbsSquaredZero(c: int)
    requires c == 0
    ensures W.AbsSquared(W.ZW(c, 0, 0, 0)) == Z2.Zero
  {
    AbsSquaredInt(c);
  }

  lemma AbsSquaredOne(c: int)
    requires c == 1
    ensures W.AbsSquared(W.ZW(c, 0, 0, 0)) == Z2.One
  {
    AbsSquaredInt(c);
  }

  /** Multiplying m by a factor whose squared modulus is eta^e adds eta^e to the product. */
  lemma AssembleStep(base: Z2.ZSqrt2, prod: Z2.ZSqrt2, m: W.ZW, x: W.ZW, eta: Z2.ZSqrt2, e: nat)
    requires W.AbsSquared(m) == Z2.Mul(base, prod) && W.AbsSquared(x) == Z2.Pow(eta, e)
    ensures W.AbsSquared(W.Mul(m, x)) == Z2.Mul(base, Z2.Mul(prod, Z2.Pow(eta, e)))
  {
    W.AbsSquaredMultiplicative(m, x);
    Z2.MulAssoc(base, prod, Z2.Pow(eta, e));
  }

  /** An inert ideal with an odd exponent: solve gives up on it. */
  predicate OddInert(info: IdealInfo, e: nat) {
    info.isInert && e % 2 == 1
  }

  /**
   * One pass of the last loop of solve: m times the factor of one ideal, or None for an inert
   * ideal with odd exponent.
   */
  method AssembleOne(m: W.ZW, ideal: IdealInfo, e: nat) returns (r: Option<W.ZW>)
    requires !ideal.isInert ==> ideal.eta == W.AbsSquared(ideal.chi)
    ensures r.None? <==> OddInert(ideal, e)
    ensures r.Some? ==> W.AbsSquared(r.value) == Z2.Mul(W.AbsSquared(m), Z2.Pow(ideal.eta, e))
  {
    var base := W.AbsSquared(m);
    Z2.MulOne(base);
    if e == 0 {
      AssembleZero(base, Z2.One, ideal.eta, e);
      return Some(m);
    }
    if ideal.isInert {
      if e % 2 == 0 {
        var eta := W.FromPair(ideal.eta, Z2.Zero, false);
        var pw := W.Power(eta, e / 2);
        AssembleInert(base, Z2.One, m, pw.value, ideal.eta, e);
        Z2.MulOne(Z2.Pow(ideal.eta, e));
        return Some(W.Mul(m, pw.value));
      } else {
        return None;
      }
    }
    var pw := W.Power(ideal.chi, e);
    AssembleSplit(base, Z2.One, m, ideal.chi, ideal.eta, e);
    Z2.MulOne(Z2.Pow(ideal.eta, e));
    return Some(W.Mul(m, pw.value));
  }

  lemma AssembleZero(base: Z2.ZSqrt2, prod: Z2.ZSqrt2, eta: Z2.ZSqrt2, e: nat)
    requires e == 0
    ensures Z2.Mul(base, Z2.Mul(prod, Z2.Pow(eta, e))) == Z2.Mul(base, prod)
  {
    Z2.MulOne(prod);
  }

  /** An inert ideal with even exponent e contributes the real factor eta^(e/2). */
  lemma AssembleInert(base: Z2.ZSqrt2, prod: Z2.ZSqrt2, m: W.ZW, x: W.ZW, eta: Z2.ZSqrt2, e: nat)
    requires e % 2 == 0 && x == W.Pow(W.FromPair(eta, Z2.Zero, false), e / 2)
    requires W.AbsSquared(m) == Z2.Mul(base, prod)
    ensures W.AbsSquared(W.Mul(m, x)) == Z2.Mul(base, Z2.Mul(prod, Z2.Pow(eta, e)))
  {
    assert W.FromPair(eta, Z2.Zero, false) == W.Embed(eta);
    AbsSquaredRealPow(eta, e / 2);
    assert 2 * (e / 2) == e;
    AssembleStep(base, prod, m, x, eta, e);
  }

  /** A split ideal with exponent e contributes chi^e, whose squared modulus is eta^e. */
  lemma AssembleSplit(base: Z2.ZSqrt2, prod: Z2.ZSqrt2, m: W.ZW, chi: W.ZW, eta: Z2.ZSqrt2, e: nat)
    requires eta == W.AbsSquared(chi) && W.AbsSquared(m) == Z2.Mul(base, prod)
    ensures W.AbsSquared(W.Mul(m, W.Pow(chi, e))) == Z2.Mul(base, Z2.Mul(prod, Z2.Pow(eta, e)))
  {
    AbsSquaredPow(chi, e);
    AssembleStep(base, prod, m, W.Pow(chi, e), eta, e);
  }

  /** The product over the first k generators, as the loop of solve accumulates it. */
  function ProductUpTo(etas: seq<Z2.ZSqrt2>, e: seq<nat>, k: nat): Z2.ZSqrt2
    requires |e| == |etas| && k <= |etas|
  {
    if k == 0 then Z2.One else Z2.Mul(ProductUpTo(etas, e, k - 1), Z2.Pow(etas[k - 1], e[k - 1]))
  }

  lemma {:induction false} ProductUpToPrefix(etas: seq<Z2.ZSqrt2>, e: seq<nat>, k: nat)
    requires |e| == |etas| && k <= |etas|
    ensures ProductUpTo(etas, e, k) == Product(etas[..k], e[..k])
  {
    if k > 0 {
      ProductUpToPrefix(etas, e, k - 1);
      ProductStep(etas, e[..k - 1], k - 1, e[k - 1]);
      assert e[..k - 1] + [e[k - 1]] == e[..k];
    }
  }

  lemma ProductIsUpTo(etas: seq<Z2.ZSqrt2>, e: seq<nat>)
    requires |e| == |etas|
    ensures Product(etas, e) == ProductUpTo(etas, e, |etas|)
  {
    ProductUpToPrefix(etas, e, |etas|);
    assert etas[..|etas|] == etas && e[..|e|] == e;
  }

  /**
   * The loops of solve that build `info`: one IdealInfo per prime ideal, prime by prime. None
   * stands for the AssertionError of a gcd.
   */
  method IdealInfos(factorisation: seq<(int, seq<W.ZW>)>, isPrimeIdeal: Z2.ZSqrt2 -> bool)
    returns (r: Option<seq<IdealInfo>>)
    ensures r.Some? ==> |r.value| == |Flatten(factorisation)|
    ensures r.Some? ==> forall j | 0 <= j < |r.value| :: r.value[j].ideal == Flatten(factorisation)[j]
    ensures r.Some? ==> forall j | 0 <= j < |r.value| :: Describes(r.value[j], isPrimeIdeal)
    ensures r.Some? ==> SplitEtas(r.value)
    ensures factorisation == [] ==> r == Some([])
  {
    var info: seq<IdealInfo> := [];
    for i := 0 to |factorisation|
      invariant |info| == |Flatten(factorisation[..i])|
      invariant forall j | 0 <= j < |info| :: info[j].ideal == Flatten(factorisation[..i])[j]
      invariant forall j | 0 <= j < |info| :: Describes(info[j], isPrimeIdeal)
    {
      var (p, ideals) := factorisation[i];
      FlattenStep(factorisation, i);
      for j := 0 to |ideals|
        invariant |info| == |Flatten(factorisation[..i])| + j
        invariant forall l | 0 <= l < |info| :: info[l].ideal == (Flatten(factorisation[..i]) + ideals[..j])[l]
        invariant forall l | 0 <= l < |info| :: Describes(info[l], isPrimeIdeal)
      {
        var x := Info(ideals[j], p, isPrimeIdeal);
        if x.None? {
          return None;
        }
        info := info + [x.value];
      }
      assert ideals[..|ideals|] == ideals;
    }
    assert factorisation[..|factorisation|] == factorisation;
    DescribedSplit(info, isPrimeIdeal);
    return Some(info);
  }

  /** The prime ideals of the factorisation, in the order solve visits them. */
  function Flatten(factorisation: seq<(int, seq<W.ZW>)>): (r: seq<W.ZW>)
    ensures |factorisation| == 0 ==> r == []
  {
    if |factorisation| == 0 then [] else Flatten(factorisation[..|factorisation| - 1]) + factorisation[|factorisation| - 1].1
  }

  lemma FlattenStep(factorisation: seq<(int, seq<W.ZW>)>, i: nat)
    requires i < |factorisation|
    ensures Flatten(factorisation[..i + 1]) == Flatten(factorisation[..i]) + factorisation[i].1
  {
    assert factorisation[..i + 1][..i] == factorisation[..i];
  }

  /** For every split ideal, eta is chi * conj(chi). */
  ghost predicate SplitEtas(info: seq<IdealInfo>) {
    forall i | 0 <= i < |info| :: !info[i].isInert ==> info[i].eta == W.AbsSquared(info[i].chi)
  }

  lemma DescribedSplit(info: seq<IdealInfo>, isPrimeIdeal: Z2.ZSqrt2 -> bool)
    requires forall j | 0 <= j < |info| :: Describes(info[j], isPrimeIdeal)
    ensures SplitEtas(info)
  {
    forall i | 0 <= i < |info| && !info[i].isInert
      ensures info[i].eta == W.AbsSquared(info[i].chi)
    {
      DescribedSplitOne(info[i], isPrimeIdeal);
    }
  }

  lemma DescribedSplitOne(info: IdealInfo, isPrimeIdeal: Z2.ZSqrt2 -> bool)
    requires Describes(info, isPrimeIdeal) && !info.isInert
    ensures info.eta == W.AbsSquared(info.chi)
  {}
}
