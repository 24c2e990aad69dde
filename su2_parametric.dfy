/**
 * The parametric form of scaled SU(2) Clifford+T matrices (`parametric_form` and
 * `from_parametric_form` of qualtran/rotation_synthesis/matrix/su2_ct.py): a matrix
 * [[u, -v*], [v, u*]] is a combination a B0 + b B1 + c B2 + d B3 of four fixed matrices with
 * coefficients a, b, c, d in Z[sqrt 2]. The two maps are inverse bijections between the
 * quadruples and the admissible matrices (u and v congruent modulo sqrt 2).
 */
module SU2Parametric {
  import opened Wrappers
  import Z2 = ZSqrt2Ring
  import W = ZOmegaRing
  import opened SU2CliffordT
  import G = SU2Gates

  /** The four coefficients (a, b, c, d). */
  datatype PForm = PForm(a: Z2.ZSqrt2, b: Z2.ZSqrt2, c: Z2.ZSqrt2, d: Z2.ZSqrt2)

  /** A boolean added to an element of Z[sqrt 2], as Python adds True and False. */
  function BoolInt(x: bool): int { if x then 1 else 0 }

  // ---------------------------------------------------------------------------------
  // parametric_form

  /**
   * `parametric_form()`: the coefficients read off the first column. None where one of the
   * `divide_by_sqrt2` calls raises, that is where the integer part to halve is odd.
   */
  function ParametricForm(g: SU2): Option<PForm> {
    var t0 := W.ToZSqrt2(g.m.a);
    var real0, imag0, n0 := t0.0, t0.1, t0.2;
    var d := Z2.Add(Z2.Mul(imag0, Z2.Sqrt2), Z2.FromInt(BoolInt(n0)));
    var t1 := W.ToZSqrt2(g.m.c);
    var real1, imag1, n1 := t1.0, t1.1, t1.2;
    var b := CoefficientB(imag0, imag1, n1, d);
    var hc := Z2.DivideBySqrt2(Z2.Add(Z2.FromInt(BoolInt(n1)), d));
    if b.None? || hc.None? then None
    else
      var c := Z2.Sub(Z2.Neg(real1), hc.value);
      var ha := Z2.DivideBySqrt2(Z2.Sub(Z2.FromInt(BoolInt(n0)), d));
      if ha.None? then None
      else
        var a := Z2.DivideBySqrt2(Z2.Add(Z2.Sub(Z2.Sub(real0, b.value), c), ha.value));
        if a.None? then None else Some(PForm(a.value, b.value, c, d))
  }

  /** The `b` of parametric_form, which depends on whether v needs w. */
  function CoefficientB(imag0: Z2.ZSqrt2, imag1: Z2.ZSqrt2, n1: bool, d: Z2.ZSqrt2): Option<Z2.ZSqrt2> {
    if n1 then
      var h := Z2.DivideBySqrt2(Z2.Sub(Z2.One, d));
      if h.Some? then Some(Z2.Add(imag1, h.value)) else None
    else
      Some(Z2.Sub(imag1, imag0))
  }

  // ---------------------------------------------------------------------------------
  // from_parametric_form

  /** w* == -w^3, the complex conjugate of w. */
  const OmegaConj := W.ZW(0, 0, 0, -1)

  /** `PARAMETRIC_FORM_BASES`, with the products of the source written out:
      I sqrt 2, I + X J == [[1, J], [J, 1]], I + Y J == [[1, 1], [-1, 1]] and
      [[w, w], [-w*, w*]]. */
  function Bases(): seq<Mat> {
    [Mat(W.Sqrt2, W.Zero, W.Zero, W.Sqrt2),
     Mat(W.One, W.J, W.J, W.One),
     Mat(W.One, W.One, W.Neg(W.One), W.One),
     Mat(W.Omega, W.Omega, W.Neg(OmegaConj), OmegaConj)]
  }

  function Coefficients(pf: PForm): seq<Z2.ZSqrt2> { [pf.a, pf.b, pf.c, pf.d] }

  function MatAdd(x: Mat, y: Mat): Mat {
    Mat(W.Add(x.a, y.a), W.Add(x.b, y.b), W.Add(x.c, y.c), W.Add(x.d, y.d))
  }

  const ZeroMat := Mat(W.Zero, W.Zero, W.Zero, W.Zero)

  /** `m * ZW.from_pair(x, Zero, False)`: the basis matrix m times the coefficient x. */
  function Term(m: Mat, x: Z2.ZSqrt2): Mat { TimesM(m, W.FromPair(x, Z2.Zero, false)) }

  /** The first column of a B0 + b B1 + c B2 + d B3, coordinate by coordinate. */
  function U(pf: PForm): ZW {
    var a, b, c, d := pf.a, pf.b, pf.c, pf.d;
    W.ZW(2 * a.b + b.a + c.a + d.b, a.a + b.b + c.b + d.a, d.b, -a.a - b.b - c.b)
  }

  function V(pf: PForm): ZW {
    var b, c, d := pf.b, pf.c, pf.d;
    W.ZW(-c.a - d.b, b.b - c.b, b.a + d.b, b.b + c.b + d.a)
  }

  /** The second column, -v* and u*, coordinate by coordinate. */
  function MinusVConj(pf: PForm): ZW {
    var b, c, d := pf.b, pf.c, pf.d;
    W.ZW(c.a + d.b, b.b + c.b + d.a, b.a + d.b, b.b - c.b)
  }

  function UConj(pf: PForm): ZW {
    var a, b, c, d := pf.a, pf.b, pf.c, pf.d;
    W.ZW(2 * a.b + b.a + c.a + d.b, a.a + b.b + c.b, -d.b, -a.a - b.b - c.b - d.a)
  }

  /** a B0 + b B1 + c B2 + d B3. */
  function Compose(pf: PForm): Mat { Mat(U(pf), MinusVConj(pf), V(pf), UConj(pf)) }

  /** `from_parametric_form(pf)`, with the loop of the source; the result records no gates. */
  method FromParametricForm(pf: PForm) returns (r: SU2)
    ensures r.m == Compose(pf) && r.gates == None
  {
    var res := ZeroMat;
    var coefficients := Coefficients(pf);
    var bases := Bases();
    ComposeNone(pf, Z2.Zero);
    for i := 0 to 4
      invariant res == Compose(Truncated(pf, i, Z2.Zero))
    {
      ComposeStep(pf, i, Z2.Zero);
      res := MatAdd(res, Term(bases[i], coefficients[i]));
    }
    TruncatedAll(pf, Z2.Zero);
    r := SU2(res, None);
  }

  /** The coefficients taken so far: those of index below i, the others z (zero). */
  function Truncated(pf: PForm, i: nat, z: Z2.ZSqrt2): PForm {
    PForm(if 0 < i then pf.a else z, if 1 < i then pf.b else z,
          if 2 < i then pf.c else z, if 3 < i then pf.d else z)
  }

  lemma TruncatedAll(pf: PForm, z: Z2.ZSqrt2)
    ensures Truncated(pf, 4, z) == pf
  {}

  lemma ComposeNone(pf: PForm, z: Z2.ZSqrt2)
    requires z == Z2.Zero
    ensures Compose(Truncated(pf, 0, z)) == ZeroMat
  {}

  /** One pass of the loop adds the next term. */
  lemma ComposeStep(pf: PForm, i: nat, z: Z2.ZSqrt2)
    requires i < 4 && z == Z2.Zero
    ensures Compose(Truncated(pf, i + 1, z)) == MatAdd(Compose(Truncated(pf, i, z)), Term(Bases()[i], Coefficients(pf)[i]))
  {
    if i == 0 {
      TermB0(pf.a);
      ComposeFirst(pf, z, Term(Bases()[0], pf.a));
      ComposeNone(pf, z);
    } else {
      ComposeLater(pf, i, z);
    }
  }

  /** The first pass, with t the first term. */
  lemma ComposeFirst(pf: PForm, z: Z2.ZSqrt2, t: Mat)
    requires z == Z2.Zero
    requires t == Mat(W.ZW(2 * pf.a.b, pf.a.a, 0, -pf.a.a), W.Zero, W.Zero, W.ZW(2 * pf.a.b, pf.a.a, 0, -pf.a.a))
    ensures Compose(Truncated(pf, 1, z)) == MatAdd(ZeroMat, t)
  {
    AddZeroMat(t);
  }

  lemma AddZeroMat(m: Mat)
    ensures MatAdd(ZeroMat, m) == m
  {}

  lemma ComposeLater(pf: PForm, i: nat, z: Z2.ZSqrt2)
    requires 1 <= i < 4 && z == Z2.Zero
    ensures Compose(Truncated(pf, i + 1, z)) == MatAdd(Compose(Truncated(pf, i, z)), Term(Bases()[i], Coefficients(pf)[i]))
  {
    if i == 1 {
      TermB1(pf.b);
    } else if i == 2 {
      TermB2(pf.c);
    } else {
      TermB3(pf.d);
    }
  }

  lemma EmbedPair(x: Z2.ZSqrt2)
    ensures W.FromPair(x, Z2.Zero, false) == W.ZW(x.a, x.b, 0, -x.b)
  {}

  lemma TermB0(x: Z2.ZSqrt2)
    ensures Term(Bases()[0], x) == Mat(W.ZW(2 * x.b, x.a, 0, -x.a), W.Zero, W.Zero, W.ZW(2 * x.b, x.a, 0, -x.a))
  {
    EmbedPair(x);
  }

  lemma TermB1(x: Z2.ZSqrt2)
    ensures var e := W.ZW(x.a, x.b, 0, -x.b);
      Term(Bases()[1], x) == Mat(e, W.ZW(0, x.b, x.a, x.b), W.ZW(0, x.b, x.a, x.b), e)
  {
    EmbedPair(x);
  }

  lemma TermB2(x: Z2.ZSqrt2)
    ensures var e := W.ZW(x.a, x.b, 0, -x.b);
      Term(Bases()[2], x) == Mat(e, e, W.Neg(e), e)
  {
    EmbedPair(x);
  }

  lemma TermB3(x: Z2.ZSqrt2)
    ensures Term(Bases()[3], x)
      == Mat(W.ZW(x.b, x.a, x.b, 0), W.ZW(x.b, x.a, x.b, 0), W.ZW(-x.b, 0, x.b, x.a), W.ZW(x.b, 0, -x.b, -x.a))
  {
    EmbedPair(x);
  }

  // ---------------------------------------------------------------------------------
  // The two maps are inverse

  /** The coefficients with first column [u, v], solved coordinate by coordinate. */
  function Solve(u: ZW, v: ZW): PForm {
    var d := Z2.ZSqrt2(u.c1 + u.c3, u.c2);
    var b := Z2.ZSqrt2(v.c2 - u.c2, (v.c1 + v.c3 - u.c1 - u.c3) / 2);
    var c := Z2.ZSqrt2(-v.c0 - u.c2, (v.c3 - v.c1 - u.c1 - u.c3) / 2);
    var a := Z2.ZSqrt2(u.c1 - v.c3, (u.c0 + u.c2 + v.c0 - v.c2) / 2);
    PForm(a, b, c, d)
  }

  /** Every composed matrix is admissible: shaped, with u and v congruent modulo sqrt 2. */
  lemma ComposeAdmissible(pf: PForm)
    ensures Admissible(Compose(pf))
  {
    var b, c, d := pf.b, pf.c, pf.d;
    OddShift(b.a + c.a, pf.a.b + d.b);
    OddShift(d.a, b.b);
  }

  lemma OddShift(x: int, y: int)
    ensures Odd(x + 2 * y) == Odd(x) && Odd(2 * y - x) == Odd(x)
  {}

  /** parametric_form succeeds exactly on the matrices whose first column is congruent modulo sqrt 2. */
  lemma ParametricFormDefined(g: SU2)
    ensures ParametricForm(g).Some? <==> ResidueOf(g.m.a) == ResidueOf(g.m.c)
  {
    if ResidueOf(g.m.a) == ResidueOf(g.m.c) {
      ParametricFormValue(g);
    } else {
      ParametricFormFails(g);
    }
  }

  lemma ParametricFormFails(g: SU2)
    requires ResidueOf(g.m.a) != ResidueOf(g.m.c)
    ensures ParametricForm(g).None?
  {
    var u, v := g.m.a, g.m.c;
    var r0, r1 := (u.c1 + u.c3) % 2, (v.c1 + v.c3) % 2;
  }

  /** Where it succeeds, parametric_form returns the solved coefficients. */
  lemma ParametricFormValue(g: SU2)
    requires ResidueOf(g.m.a) == ResidueOf(g.m.c)
    ensures ParametricForm(g) == Some(Solve(g.m.a, g.m.c))
  {
    var u, v := g.m.a, g.m.c;
    var r := (u.c1 + u.c3) % 2;
    var t0, t1 := W.ToZSqrt2(u), W.ToZSqrt2(v);
    var d := Z2.Add(Z2.Mul(t0.1, Z2.Sqrt2), Z2.FromInt(BoolInt(t0.2)));
    assert d == Z2.ZSqrt2(u.c1 + u.c3, u.c2);
    CoefficientBSolved(u, v, d);
    var hc := Z2.DivideBySqrt2(Z2.Add(Z2.FromInt(BoolInt(t1.2)), d));
    assert hc == Some(Z2.ZSqrt2(u.c2, (r + u.c1 + u.c3) / 2));
    var c := Z2.Sub(Z2.Neg(t1.0), hc.value);
    assert c == Solve(u, v).c;
    var ha := Z2.DivideBySqrt2(Z2.Sub(Z2.FromInt(BoolInt(t0.2)), d));
    assert ha == Some(Z2.ZSqrt2(-u.c2, (r - u.c1 - u.c3) / 2));
    CoefficientASolved(u, v, c, ha.value);
  }

  lemma CoefficientBSolved(u: ZW, v: ZW, d: Z2.ZSqrt2)
    requires ResidueOf(u) == ResidueOf(v) && d == Z2.ZSqrt2(u.c1 + u.c3, u.c2)
    ensures CoefficientB(W.ToZSqrt2(u).1, W.ToZSqrt2(v).1, W.ToZSqrt2(v).2, d) == Some(Solve(u, v).b)
  {
    assert (v.c1 + v.c3) % 2 == (u.c1 + u.c3) % 2;
  }

  lemma CoefficientASolved(u: ZW, v: ZW, c: Z2.ZSqrt2, ha: Z2.ZSqrt2)
    requires ResidueOf(u) == ResidueOf(v)
    requires c == Solve(u, v).c && ha == Z2.ZSqrt2(-u.c2, ((u.c1 + u.c3) % 2 - u.c1 - u.c3) / 2)
    ensures Z2.DivideBySqrt2(Z2.Add(Z2.Sub(Z2.Sub(W.ToZSqrt2(u).0, Solve(u, v).b), c), ha)) == Some(Solve(u, v).a)
  {
    assert (v.c1 + v.c3) % 2 == (u.c1 + u.c3) % 2;
  }

  /** The solved coefficients compose back to the column they were solved from. */
  lemma SolveColumn(u: ZW, v: ZW)
    requires ResidueOf(u) == ResidueOf(v)
    ensures U(Solve(u, v)) == u && V(Solve(u, v)) == v
  {
  }

  /** Solving the first column of a composed matrix gives back its coefficients. */
  lemma SolveCompose(pf: PForm)
    ensures Solve(U(pf), V(pf)) == pf
  {
  }

  /** parametric_form inverts from_parametric_form: parametric_form(from_parametric_form(pf)) == pf. */
  lemma ParametricFormOfCompose(pf: PForm, gates: Option<seq<string>>)
    ensures ParametricForm(SU2(Compose(pf), gates)) == Some(pf)
  {
    ComposeAdmissible(pf);
    ParametricFormValue(SU2(Compose(pf), gates));
    SolveCompose(pf);
  }

  /**
   * On shaped matrices, parametric_form succeeds exactly on the admissible ones, and
   * from_parametric_form rebuilds the matrix from its coefficients.
   */
  lemma ParametricFormRoundTrip(g: SU2)
    requires Shaped(g.m)
    ensures ParametricForm(g).Some? <==> Admissible(g.m)
    ensures ParametricForm(g).Some? ==> Compose(ParametricForm(g).value) == g.m
  {
    ParametricFormDefined(g);
    if Admissible(g.m) {
      ParametricFormValue(g);
      SolveColumn(g.m.a, g.m.c);
    }
  }

  /** Every product of a well-formed gate sequence survives the round trip through its coefficients. */
  lemma SequenceProductParametric(t: G.GateTable, names: seq<string>)
    requires G.WellFormedTable(t) && G.AllKnown(names)
    ensures G.SequenceProduct(t, names).Some?
    ensures var u := G.SequenceProduct(t, names).value;
      ParametricForm(u).Some? && Compose(ParametricForm(u).value) == u.m
  {
    G.SequenceProductDet(t, names);
    ParametricFormRoundTrip(G.SequenceProduct(t, names).value);
  }
}
