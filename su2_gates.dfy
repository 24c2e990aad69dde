/**
 * The Clifford+T generators of su2_ct.py as scaled SU2CliffordT values, the gate table
 * `GATE_MAP`, `from_sequence`, `is_valid`, the parametric form and the search for the 24
 * single-qubit Cliffords (`generate_cliffords`).
 */
module SU2Gates {
  import opened Wrappers
  import Z2 = ZSqrt2Ring
  import W = ZOmegaRing
  import opened SU2CliffordT

  // ---------------------------------------------------------------------------------
  // The generators

  /** -1 and -i, written out. */
  const MinusOne := W.ZW(-1, 0, 0, 0)
  const MinusJ := W.ZW(0, 0, -1, 0)

  /** `HSqrt2 == J * SU2CliffordT([[1, 1], [1, -1]], ("H",))`. */
  function HSqrt2(): SU2 { Times(SU2(Mat(W.One, W.One, W.One, MinusOne), Some(["H"])), W.J) }

  /** `SSqrt2 == SQRT_2 * Omega.conj() * SU2CliffordT([[1, 0], [0, J]], ("S",))`. */
  function SSqrt2(): SU2 {
    Times(SU2(Mat(W.One, W.Zero, W.Zero, W.J), Some(["S"])), W.Mul(W.Sqrt2, W.Conj(W.Omega)))
  }

  /** The Pauli matrices `_X`, `_Y`, `_Z` over Z[w]. */
  const PauliX := Mat(W.Zero, W.One, W.One, W.Zero)
  const PauliY := Mat(W.Zero, MinusJ, W.J, W.Zero)
  const PauliZ := Mat(W.One, W.Zero, W.Zero, MinusOne)

  /** One entry of `_I * SQRT_2 + _I - P * J`, with i the entry of `_I` and p that of P. */
  function TEntry(i: ZW, p: ZW): ZW { W.Sub(W.Add(W.Mul(i, W.Sqrt2), i), W.Mul(p, W.J)) }

  /** `SU2CliffordT(_I * SQRT_2 + _I - P * J, (name,))`: the T gate about axis P, scaled by
      sqrt(2 (2 + sqrt 2)). */
  function TGate(p: Mat, name: string): SU2 {
    SU2(Mat(TEntry(W.One, p.a), TEntry(W.Zero, p.b), TEntry(W.Zero, p.c), TEntry(W.One, p.d)), Some([name]))
  }

  function Tx(): SU2 { TGate(PauliX, "Tx") }
  function Ty(): SU2 { TGate(PauliY, "Ty") }
  function Tz(): SU2 { TGate(PauliZ, "Tz") }

  /** 1 + sqrt(2). */
  const Alpha := W.ZW(1, 1, 0, -1)

  /** The matrices of the generators, evaluated. */
  const SMatrix := Mat(W.ZW(1, 0, -1, 0), W.Zero, W.Zero, W.ZW(1, 0, 1, 0))
  const HMatrix := Mat(W.J, W.J, W.J, MinusJ)
  const TxMatrix := Mat(Alpha, MinusJ, MinusJ, Alpha)
  const TyMatrix := Mat(Alpha, MinusOne, W.One, Alpha)
  const TzMatrix := Mat(W.ZW(1, 1, -1, -1), W.Zero, W.Zero, W.ZW(1, 1, 1, -1))

  /** x * i in coordinates, with i written ZW(0, 0, b, 0) for b == 1. */
  lemma MulJ(x: ZW, b: int)
    requires b == 1
    ensures W.Mul(x, W.ZW(0, 0, b, 0)) == W.ZW(-x.c2, -x.c3, x.c0, x.c1)
    ensures W.Mul(W.ZW(0, 0, b, 0), x) == W.ZW(-x.c2, -x.c3, x.c0, x.c1)
  {}

  lemma SSqrt2Factor()
    ensures W.Mul(W.Sqrt2, W.Conj(W.Omega)) == W.ZW(1, 0, -1, 0)
  {
    ConjOmega();
    Sqrt2TimesConjOmega();
  }

  lemma ConjOmega()
    ensures W.Conj(W.Omega) == W.ZW(0, 0, 0, -1)
  {}

  lemma Sqrt2TimesConjOmega()
    ensures W.Mul(W.Sqrt2, W.ZW(0, 0, 0, -1)) == W.ZW(1, 0, -1, 0)
  {}

  lemma SSqrt2Entries()
    ensures SSqrt2().m == SMatrix
  {
    SSqrt2Factor();
    MulJ(W.ZW(1, 0, -1, 0), 1);
    W.MulOne(W.ZW(1, 0, -1, 0));
    ZeroTimes(W.ZW(1, 0, -1, 0));
  }

  lemma HSqrt2Entries()
    ensures HSqrt2().m == HMatrix
  {
    MulJ(W.One, 1);
    MulJ(MinusOne, 1);
  }

  /** An entry of `_I * SQRT_2 + _I - P * J` in coordinates. */
  lemma TEntryClosed(i: ZW, p: ZW)
    ensures TEntry(i, p) == W.ZW(i.c1 - i.c3 + i.c0 + p.c2, i.c0 + i.c2 + i.c1 + p.c3,
                                 i.c1 + i.c3 + i.c2 - p.c0, i.c2 - i.c0 + i.c3 - p.c1)
  {
    MulSqrt2(i, 1);
    MulJ(p, 1);
  }

  lemma TxEntries()
    ensures Tx().m == TxMatrix
  {
    TEntryClosed(W.One, W.Zero);
    TEntryClosed(W.Zero, W.One);
  }

  lemma TyEntries()
    ensures Ty().m == TyMatrix
  {
    TEntryClosed(W.One, W.Zero);
    TEntryClosed(W.Zero, MinusJ);
    TEntryClosed(W.Zero, W.J);
  }

  lemma TzEntries()
    ensures Tz().m == TzMatrix
  {
    TEntryClosed(W.One, W.One);
    TEntryClosed(W.One, MinusOne);
    TEntryClosed(W.Zero, W.Zero);
  }

  // ---------------------------------------------------------------------------------
  // The shape [[u, -v*], [v, u*]] of the generators

  function Shape(u: ZW, v: ZW): Mat { Mat(u, W.Neg(W.Conj(v)), v, W.Conj(u)) }

  /** Shape(u, v) is admissible exactly when u and v are congruent modulo sqrt(2). */
  lemma AdmissibleShape(u: ZW, v: ZW)
    ensures Admissible(Shape(u, v)) <==> ResidueOf(u) == ResidueOf(v)
  {
    ConjLaws(u, u);
    ConjLaws(v, v);
  }

  /** The determinant of a shaped matrix in coordinates. */
  lemma DetClosed(g: SU2)
    requires Shaped(g.m)
    ensures Det(g) == Some(Z2.ZSqrt2(W.P(g.m.a) + W.P(g.m.c), W.Q(g.m.a) + W.Q(g.m.c)))
  {
    DetShaped(g.m);
  }

  lemma DetShapeClosed(u: ZW, v: ZW, gates: Option<seq<string>>)
    ensures Det(SU2(Shape(u, v), gates)) == Some(Z2.ZSqrt2(W.P(u) + W.P(v), W.Q(u) + W.Q(v)))
  {
    ConjLaws(u, u);
    ConjLaws(v, v);
    DetClosed(SU2(Shape(u, v), gates));
  }

  /** The determinant of Shape(ZW(a0, a1, a2, a3), ZW(c0, c1, c2, c3)), given as (p, q). */
  lemma DetShapeValue(a0: int, a1: int, a2: int, a3: int, c0: int, c1: int, c2: int, c3: int,
                      gates: Option<seq<string>>, p: int, q: int)
    requires p == a0 * a0 + a1 * a1 + a2 * a2 + a3 * a3 + c0 * c0 + c1 * c1 + c2 * c2 + c3 * c3
    requires q == a0 * a1 + a1 * a2 + a2 * a3 - a0 * a3 + c0 * c1 + c1 * c2 + c2 * c3 - c0 * c3
    ensures Det(SU2(Shape(W.ZW(a0, a1, a2, a3), W.ZW(c0, c1, c2, c3)), gates)) == Some(Z2.ZSqrt2(p, q))
  {
    DetShapeClosed(W.ZW(a0, a1, a2, a3), W.ZW(c0, c1, c2, c3), gates);
  }

  lemma NegConjClosed(x: ZW)
    ensures W.Neg(W.Conj(x)) == W.ZW(-x.c0, x.c3, x.c2, x.c1)
  {}

  // Each generator in the shape form, its residues and its determinant, one step per lemma.

  lemma IShape()
    ensures ISqrt2() == SU2(Shape(W.Sqrt2, W.Zero), Some([]))
  {
    ISqrt2Entries();
    NegConjClosed(W.Zero);
  }

  lemma IResidues()
    ensures ResidueOf(W.Sqrt2) == ResidueOf(W.Zero)
  {}

  lemma IDetValue()
    ensures Det(SU2(Shape(W.ZW(0, 1, 0, -1), W.ZW(0, 0, 0, 0)), Some([]))) == Some(Z2.ZSqrt2(2, 0))
  {
    DetShapeValue(0, 1, 0, -1, 0, 0, 0, 0, Some([]), 2, 0);
  }

  lemma IAdmissible()
    ensures Admissible(ISqrt2().m)
  {
    IShape();
    IResidues();
    AdmissibleShape(W.Sqrt2, W.Zero);
  }

  lemma IDet()
    ensures Det(ISqrt2()) == Some(Z2.ZSqrt2(2, 0))
  {
    IShape();
    IDetValue();
  }

  lemma SShape()
    ensures SSqrt2() == SU2(Shape(W.ZW(1, 0, -1, 0), W.Zero), Some(["S"]))
  {
    SSqrt2Entries();
    NegConjClosed(W.Zero);
  }

  lemma SResidues()
    ensures ResidueOf(W.ZW(1, 0, -1, 0)) == ResidueOf(W.Zero)
  {}

  lemma SDetValue()
    ensures Det(SU2(Shape(W.ZW(1, 0, -1, 0), W.ZW(0, 0, 0, 0)), Some(["S"]))) == Some(Z2.ZSqrt2(2, 0))
  {
    DetShapeValue(1, 0, -1, 0, 0, 0, 0, 0, Some(["S"]), 2, 0);
  }

  lemma SAdmissible()
    ensures Admissible(SSqrt2().m)
  {
    SShape();
    SResidues();
    AdmissibleShape(W.ZW(1, 0, -1, 0), W.Zero);
  }

  lemma SDet()
    ensures Det(SSqrt2()) == Some(Z2.ZSqrt2(2, 0))
  {
    SShape();
    SDetValue();
  }

  lemma HShape()
    ensures HSqrt2() == SU2(Shape(W.J, W.J), Some(["H"]))
  {
    HSqrt2Entries();
    NegConjClosed(W.J);
  }

  lemma HDetValue()
    ensures Det(SU2(Shape(W.ZW(0, 0, 1, 0), W.ZW(0, 0, 1, 0)), Some(["H"]))) == Some(Z2.ZSqrt2(2, 0))
  {
    DetShapeValue(0, 0, 1, 0, 0, 0, 1, 0, Some(["H"]), 2, 0);
  }

  lemma HAdmissible()
    ensures Admissible(HSqrt2().m)
  {
    HShape();
    AdmissibleShape(W.J, W.J);
  }

  lemma HDet()
    ensures Det(HSqrt2()) == Some(Z2.ZSqrt2(2, 0))
  {
    HShape();
    HDetValue();
  }

  lemma TxShape()
    ensures Tx() == SU2(Shape(Alpha, MinusJ), Some(["Tx"]))
  {
    TxEntries();
    NegConjClosed(MinusJ);
  }

  lemma TxResidues()
    ensures ResidueOf(Alpha) == ResidueOf(MinusJ)
  {}

  lemma TxDetValue()
    ensures Det(SU2(Shape(W.ZW(1, 1, 0, -1), W.ZW(0, 0, -1, 0)), Some(["Tx"]))) == Some(Z2.ZSqrt2(4, 2))
  {
    DetShapeValue(1, 1, 0, -1, 0, 0, -1, 0, Some(["Tx"]), 4, 2);
  }

  lemma TxAdmissible()
    ensures Admissible(Tx().m)
  {
    TxShape();
    TxResidues();
    AdmissibleShape(Alpha, MinusJ);
  }

  lemma TxDet()
    ensures Det(Tx()) == Some(Z2.ZSqrt2(4, 2))
  {
    TxShape();
    TxDetValue();
  }

  lemma TyShape()
    ensures Ty() == SU2(Shape(Alpha, W.One), Some(["Ty"]))
  {
    TyEntries();
    NegConjClosed(W.One);
  }

  lemma TyResidues()
    ensures ResidueOf(Alpha) == ResidueOf(W.One)
  {}

  lemma TyDetValue()
    ensures Det(SU2(Shape(W.ZW(1, 1, 0, -1), W.ZW(1, 0, 0, 0)), Some(["Ty"]))) == Some(Z2.ZSqrt2(4, 2))
  {
    DetShapeValue(1, 1, 0, -1, 1, 0, 0, 0, Some(["Ty"]), 4, 2);
  }

  lemma TyAdmissible()
    ensures Admissible(Ty().m)
  {
    TyShape();
    TyResidues();
    AdmissibleShape(Alpha, W.One);
  }

  lemma TyDet()
    ensures Det(Ty()) == Some(Z2.ZSqrt2(4, 2))
  {
    TyShape();
    TyDetValue();
  }

  lemma TzShape()
    ensures Tz() == SU2(Shape(W.ZW(1, 1, -1, -1), W.Zero), Some(["Tz"]))
  {
    TzEntries();
    NegConjClosed(W.Zero);
  }

  lemma TzResidues()
    ensures ResidueOf(W.ZW(1, 1, -1, -1)) == ResidueOf(W.Zero)
  {}

  lemma TzDetValue()
    ensures Det(SU2(Shape(W.ZW(1, 1, -1, -1), W.ZW(0, 0, 0, 0)), Some(["Tz"]))) == Some(Z2.ZSqrt2(4, 2))
  {
    DetShapeValue(1, 1, -1, -1, 0, 0, 0, 0, Some(["Tz"]), 4, 2);
  }

  lemma TzAdmissible()
    ensures Admissible(Tz().m)
  {
    TzShape();
    TzResidues();
    AdmissibleShape(W.ZW(1, 1, -1, -1), W.Zero);
  }

  lemma TzDet()
    ensures Det(Tz()) == Some(Z2.ZSqrt2(4, 2))
  {
    TzShape();
    TzDetValue();
  }

  // ---------------------------------------------------------------------------------
  // Negation, adjoint and products of admissible matrices

  lemma PQConj(x: ZW)
    ensures W.P(W.Conj(x)) == W.P(x) && W.Q(W.Conj(x)) == W.Q(x)
    ensures W.P(W.Neg(x)) == W.P(x) && W.Q(W.Neg(x)) == W.Q(x)
  {}

  /** `-g` and `g.adjoint()` are admissible with the determinant of g when g is. */
  lemma NegateAdmissible(g: SU2)
    requires Admissible(g.m)
    ensures Admissible(Negate(g).m) && Det(Negate(g)) == Det(g)
  {
    var u, v := g.m.a, g.m.c;
    ConjLaws(v, v);
    ConjLaws(u, u);
    ResidueLinear(u, v);
    ResidueLinear(v, u);
    PQConj(u);
    PQConj(v);
    DetClosed(g);
    DetClosed(Negate(g));
  }

  lemma AdjointAdmissible(g: SU2)
    requires Admissible(g.m)
    ensures Admissible(Adjoint(g).m) && Det(Adjoint(g)) == Det(g)
  {
    var u, v := g.m.a, g.m.c;
    ConjLaws(v, v);
    ConjLaws(u, u);
    ResidueLinear(u, v);
    ResidueLinear(v, u);
    PQConj(u);
    PQConj(v);
    assert Adjoint(g).m == Shape(W.Conj(u), W.Neg(v));
    DetClosed(g);
    DetClosed(Adjoint(g));
  }

  /** The determinant after k T gates: 2 (2 + sqrt 2)^k. */
  function DetAfter(k: nat): Z2.ZSqrt2 { Z2.Scale(Z2.Pow(Z2.LambdaKliuchnikov, k), 2) }

  lemma DetAfterZeroAt(k: nat)
    requires k == 0
    ensures DetAfter(k) == Z2.ZSqrt2(2, 0)
  {}

  lemma DetAfterOneAt(k: nat)
    requires k == 1
    ensures DetAfter(k) == Z2.ZSqrt2(4, 2)
  {
    assert Z2.Pow(Z2.LambdaKliuchnikov, k - 1) == Z2.One;
  }

  lemma ScaleTwiceProduct(x: Z2.ZSqrt2, y: Z2.ZSqrt2)
    ensures Z2.Mul(Z2.Scale(x, 2), Z2.Scale(y, 2)) == Z2.Scale(Z2.Scale(Z2.Mul(x, y), 2), 2)
  {}

  /**
   * A product of admissible matrices with determinants 2 (2 + sqrt 2)^j and 2 (2 + sqrt 2)^k is
   * admissible with determinant 2 (2 + sqrt 2)^(j + k): the T counts add up.
   */
  lemma {:induction false} DetProductPow(g: SU2, h: SU2, j: nat, k: nat, n: nat)
    requires Admissible(g.m) && Admissible(h.m) && n == j + k
    requires Det(g) == Some(DetAfter(j)) && Det(h) == Some(DetAfter(k))
    ensures MatMul(g, h).Some? && Admissible(MatMul(g, h).value.m)
    ensures Det(MatMul(g, h).value) == Some(DetAfter(n))
  {
    MatMulClosed(g, h);
    DetOfProduct(g, h);
    var d := Det(MatMul(g, h).value).value;
    var l := Z2.LambdaKliuchnikov;
    ScaleTwiceProduct(Z2.Pow(l, j), Z2.Pow(l, k));
    Z2.PowAdd(l, j, k);
    Z2.ScaleCancel(d, DetAfter(j + k), 2);
  }

  function MatMulOpt(g: Option<SU2>, h: Option<SU2>): Option<SU2> {
    if g.Some? && h.Some? then MatMul(g.value, h.value) else None
  }

  // ---------------------------------------------------------------------------------
  // The scaled Pauli gates and the gate table

  lemma TwoSquared()
    ensures Z2.Mul(Z2.ZSqrt2(2, 0), Z2.ZSqrt2(2, 0)) == Z2.ZSqrt2(4, 0)
  {}

  lemma HalveFour(d: Z2.ZSqrt2)
    requires Z2.Scale(d, 2) == Z2.ZSqrt2(4, 0)
    ensures d.a == 2 && d.b == 0
  {}

  /** The determinant d of a product of two matrices of determinant 2 satisfies 2 d == 2 * 2. */
  lemma HalfOfFour(d: Z2.ZSqrt2)
    requires Z2.Mul(Z2.ZSqrt2(2, 0), Z2.ZSqrt2(2, 0)) == Z2.Scale(d, 2)
    ensures d.a == 2 && d.b == 0
  {
    TwoSquared();
    HalveFour(d);
  }

  /** A product of two admissible matrices of determinant 2 is admissible of determinant 2. */
  lemma DetProductTwo(g: SU2, h: SU2)
    requires Admissible(g.m) && Admissible(h.m)
    requires Det(g) == Some(Z2.ZSqrt2(2, 0)) && Det(h) == Some(Z2.ZSqrt2(2, 0))
    ensures MatMul(g, h).Some? && Admissible(MatMul(g, h).value.m)
    ensures Det(MatMul(g, h).value) == Some(Z2.ZSqrt2(2, 0))
  {
    MatMulClosed(g, h);
    DetOfProduct(g, h);
    HalfOfFour(Det(MatMul(g, h).value).value);
  }

  /** A Clifford entry of the table: admissible, of determinant 2, recording `word`. */
  predicate CliffordEntry(g: SU2, word: Option<seq<string>>) {
    Admissible(g.m) && Det(g) == Some(Z2.ZSqrt2(2, 0)) && g.gates == word
  }

  /** A T entry of the table: admissible, of determinant 2 (2 + sqrt 2), recording `word`. */
  predicate TEntryOk(g: SU2, word: Option<seq<string>>) {
    Admissible(g.m) && Det(g) == Some(Z2.ZSqrt2(4, 2)) && g.gates == word
  }

  /** `ZSqrt2 = -SSqrt2 @ SSqrt2`, on the S gate given. */
  function PauliZOf(s: SU2): Option<SU2> { MatMul(Negate(s), s) }

  /** `XSqrt2 = HSqrt2 @ ZSqrt2 @ HSqrt2.adjoint()`, grouped from the left. */
  function PauliXOf(h: SU2, z: Option<SU2>): Option<SU2> {
    MatMulOpt(MatMulOpt(Some(h), z), Some(Adjoint(h)))
  }

  /** `YSqrt2 = ZSqrt2 @ XSqrt2`. */
  function PauliYOf(z: Option<SU2>, x: Option<SU2>): Option<SU2> { MatMulOpt(z, x) }

  /** `-s @ s` is a Clifford entry recording no gates when s is a Clifford entry. */
  lemma PauliZOfFacts(s: SU2, word: Option<seq<string>>)
    requires CliffordEntry(s, word)
    ensures PauliZOf(s).Some? && CliffordEntry(PauliZOf(s).value, None)
  {
    NegateAdmissible(s);
    DetProductTwo(Negate(s), s);
  }

  /** `h @ z @ h.adjoint()` is a Clifford entry recording no gates when h and z are Clifford
      entries and z records none. */
  lemma PauliXOfFacts(h: SU2, word: Option<seq<string>>, z: SU2)
    requires CliffordEntry(h, word) && CliffordEntry(z, None)
    ensures PauliXOf(h, Some(z)).Some? && CliffordEntry(PauliXOf(h, Some(z)).value, None)
  {
    DetProductTwo(h, z);
    var hz := MatMul(h, z).value;
    AdjointAdmissible(h);
    DetProductTwo(hz, Adjoint(h));
  }

  /** `z @ x` is a Clifford entry recording no gates when z and x are and z records none. */
  lemma PauliYOfFacts(z: SU2, x: SU2)
    requires CliffordEntry(z, None) && CliffordEntry(x, None)
    ensures PauliYOf(Some(z), Some(x)).Some? && CliffordEntry(PauliYOf(Some(z), Some(x)).value, None)
  {
    DetProductTwo(z, x);
  }

  /** The nine entries of `GATE_MAP`; the Paulis are None where a product they are built from
      fails its divisibility assertion. */
  datatype GateTable = GateTable(i: SU2, s: SU2, h: SU2, tx: SU2, ty: SU2, tz: SU2,
                                 x: Option<SU2>, y: Option<SU2>, z: Option<SU2>)

  /** The table built from the six generators, with the Paulis computed from S and H as the
      source computes them. */
  function BuildTable(i: SU2, s: SU2, h: SU2, tx: SU2, ty: SU2, tz: SU2): GateTable {
    var z := PauliZOf(s);
    var x := PauliXOf(h, z);
    GateTable(i, s, h, tx, ty, tz, x, PauliYOf(z, x), z)
  }

  /** `GATE_MAP`. */
  function GateMap(): GateTable { BuildTable(ISqrt2(), SSqrt2(), HSqrt2(), Tx(), Ty(), Tz()) }

  /** Every entry of the table is admissible, the Cliffords of determinant 2 and the T gates
      of determinant 2 (2 + sqrt 2), and records its own name (nothing for I and the Paulis). */
  predicate WellFormedTable(t: GateTable) {
    && CliffordEntry(t.i, Some([])) && CliffordEntry(t.s, Some(["S"])) && CliffordEntry(t.h, Some(["H"]))
    && TEntryOk(t.tx, Some(["Tx"])) && TEntryOk(t.ty, Some(["Ty"])) && TEntryOk(t.tz, Some(["Tz"]))
    && PauliEntry(t.x) && PauliEntry(t.y) && PauliEntry(t.z)
  }

  /** A Pauli entry: present, and a Clifford entry recording no gates. */
  predicate PauliEntry(o: Option<SU2>) { o.Some? && CliffordEntry(o.value, None) }

  /** Building the table from well-formed generators gives a well-formed table: the three
      Pauli products exist and are Clifford entries. */
  lemma {:induction false} BuildTableWellFormed(i: SU2, s: SU2, h: SU2, tx: SU2, ty: SU2, tz: SU2)
    requires CliffordEntry(i, Some([])) && CliffordEntry(s, Some(["S"])) && CliffordEntry(h, Some(["H"]))
    requires TEntryOk(tx, Some(["Tx"])) && TEntryOk(ty, Some(["Ty"])) && TEntryOk(tz, Some(["Tz"]))
    ensures WellFormedTable(BuildTable(i, s, h, tx, ty, tz))
  {
    PauliZOfFacts(s, Some(["S"]));
    var z := PauliZOf(s).value;
    PauliXOfFacts(h, Some(["H"]), z);
    var x := PauliXOf(h, Some(z)).value;
    PauliYOfFacts(z, x);
  }

  lemma IEntry() ensures CliffordEntry(ISqrt2(), Some([])) { IShape(); IAdmissible(); IDet(); }
  lemma SEntry() ensures CliffordEntry(SSqrt2(), Some(["S"])) { SShape(); SAdmissible(); SDet(); }
  lemma HEntry() ensures CliffordEntry(HSqrt2(), Some(["H"])) { HShape(); HAdmissible(); HDet(); }
  lemma TxEntry() ensures TEntryOk(Tx(), Some(["Tx"])) { TxShape(); TxAdmissible(); TxDet(); }
  lemma TyEntry() ensures TEntryOk(Ty(), Some(["Ty"])) { TyShape(); TyAdmissible(); TyDet(); }
  lemma TzEntry() ensures TEntryOk(Tz(), Some(["Tz"])) { TzShape(); TzAdmissible(); TzDet(); }

  /** `GATE_MAP` is well formed. */
  lemma GateMapWellFormed()
    ensures WellFormedTable(GateMap())
  {
    IEntry(); SEntry(); HEntry(); TxEntry(); TyEntry(); TzEntry();
    BuildTableWellFormed(ISqrt2(), SSqrt2(), HSqrt2(), Tx(), Ty(), Tz());
  }

  // ---------------------------------------------------------------------------------
  // Looking a name up in the table

  /** The keys of `GATE_MAP`. */
  const GateNames: set<string> := {"I", "S", "H", "Tx", "Ty", "Tz", "X", "Y", "Z"}

  predicate IsPauliName(name: string) { name == "X" || name == "Y" || name == "Z" }

  predicate IsTName(name: string) { name == "Tx" || name == "Ty" || name == "Tz" }

  /** `GATE_MAP[name]`; None for a name that is not a key (the source's KeyError). */
  function Lookup(t: GateTable, name: string): Option<SU2> {
    if name == "I" then Some(t.i)
    else if name == "S" then Some(t.s)
    else if name == "H" then Some(t.h)
    else if name == "Tx" then Some(t.tx)
    else if name == "Ty" then Some(t.ty)
    else if name == "Tz" then Some(t.tz)
    else if name == "X" then t.x
    else if name == "Y" then t.y
    else if name == "Z" then t.z
    else None
  }

  /** 1 for a T gate, 0 for a Clifford. */
  function TWeight(name: string): nat { if IsTName(name) then 1 else 0 }

  /** The gates an entry records: none for the Paulis (built with `-` and `adjoint`), nothing
      for I, and its own name otherwise. */
  function GateWord(name: string): Option<seq<string>> {
    if IsPauliName(name) then None else if name == "I" then Some([]) else Some([name])
  }

  /**
   * In a well-formed table every key gives an admissible matrix of determinant
   * 2 (2 + sqrt 2)^t, t the number of T gates it is, recording GateWord(name); any other name
   * gives None.
   */
  lemma LookupFacts(t: GateTable, name: string)
    requires WellFormedTable(t)
    ensures Lookup(t, name).Some? <==> name in GateNames
    ensures Lookup(t, name).Some? ==> Admissible(Lookup(t, name).value.m)
    ensures Lookup(t, name).Some? ==> Det(Lookup(t, name).value) == Some(DetAfter(TWeight(name)))
    ensures Lookup(t, name).Some? ==> Lookup(t, name).value.gates == GateWord(name)
  {
    if name == "I" {
      CliffordLookup(t, name, t.i);
    } else if name == "S" {
      CliffordLookup(t, name, t.s);
    } else if name == "H" {
      CliffordLookup(t, name, t.h);
    } else if name == "Tx" {
      TLookup(t, name, t.tx);
    } else if name == "Ty" {
      TLookup(t, name, t.ty);
    } else if name == "Tz" {
      TLookup(t, name, t.tz);
    } else if name == "X" {
      CliffordLookup(t, name, t.x.value);
    } else if name == "Y" {
      CliffordLookup(t, name, t.y.value);
    } else if name == "Z" {
      CliffordLookup(t, name, t.z.value);
    }
  }

  lemma CliffordLookup(t: GateTable, name: string, g: SU2)
    requires Lookup(t, name) == Some(g) && CliffordEntry(g, GateWord(name)) && !IsTName(name)
    ensures Admissible(g.m) && Det(g) == Some(DetAfter(TWeight(name))) && g.gates == GateWord(name)
  {
    DetAfterZeroAt(TWeight(name));
  }

  lemma TLookup(t: GateTable, name: string, g: SU2)
    requires Lookup(t, name) == Some(g) && TEntryOk(g, GateWord(name)) && IsTName(name)
    ensures Admissible(g.m) && Det(g) == Some(DetAfter(TWeight(name))) && g.gates == GateWord(name)
  {
    DetAfterOneAt(TWeight(name));
  }

  // ---------------------------------------------------------------------------------
  // from_sequence

  /** Every name is a key of the table. */
  predicate AllKnown(names: seq<string>) { forall i | 0 <= i < |names| :: names[i] in GateNames }

  /** Some name is a Pauli. */
  predicate HasPauli(names: seq<string>) { exists i | 0 <= i < |names| :: IsPauliName(names[i]) }

  /** The number of T gates in the sequence. */
  function TCount(names: seq<string>): nat {
    if |names| == 0 then 0 else TCount(names[..|names| - 1]) + TWeight(names[|names| - 1])
  }

  /** The sequence without its I entries, which record no gate. */
  function WithoutI(names: seq<string>): seq<string> {
    if |names| == 0 then []
    else WithoutI(names[..|names| - 1]) + (if names[|names| - 1] == "I" then [] else [names[|names| - 1]])
  }

  /**
   * `from_sequence(seq)`: `u = GATE_MAP[g] @ u` for each name in turn, from ISqrt2. None when a
   * name is not a key or a product fails its divisibility assertion.
   */
  function SequenceProduct(t: GateTable, names: seq<string>): Option<SU2> {
    if |names| == 0 then Some(t.i)
    else MatMulOpt(Lookup(t, names[|names| - 1]), SequenceProduct(t, names[..|names| - 1]))
  }

  lemma PrefixFacts(names: seq<string>)
    requires |names| > 0
    ensures var p, n := names[..|names| - 1], names[|names| - 1];
      && (AllKnown(names) <==> AllKnown(p) && n in GateNames)
      && (HasPauli(names) <==> HasPauli(p) || IsPauliName(n))
  {
    var p, n := names[..|names| - 1], names[|names| - 1];
    assert forall i | 0 <= i < |p| :: p[i] == names[i];
    if HasPauli(names) {
      var i :| 0 <= i < |names| && IsPauliName(names[i]);
      if i < |p| { assert IsPauliName(p[i]); }
    }
  }

  /**
   * In a well-formed table, `from_sequence` succeeds exactly on sequences of keys, and then gives
   * an admissible matrix of determinant 2 (2 + sqrt 2)^k, k the number of T gates: the property
   * `test_multiply` checks.
   */
  lemma {:induction false} SequenceProductDet(t: GateTable, names: seq<string>)
    requires WellFormedTable(t)
    ensures SequenceProduct(t, names).Some? <==> AllKnown(names)
    ensures SequenceProduct(t, names).Some? ==> Admissible(SequenceProduct(t, names).value.m)
    ensures SequenceProduct(t, names).Some? ==>
      Det(SequenceProduct(t, names).value) == Some(DetAfter(TCount(names)))
  {
    if |names| == 0 {
      DetAfterZeroAt(TCount(names));
    } else {
      var p, n := names[..|names| - 1], names[|names| - 1];
      SequenceProductDet(t, p);
      LookupFacts(t, n);
      PrefixFacts(names);
      if Lookup(t, n).Some? && SequenceProduct(t, p).Some? {
        var g, h := Lookup(t, n).value, SequenceProduct(t, p).value;
        assert SequenceProduct(t, names) == MatMul(g, h);
        assert TCount(names) == TWeight(n) + TCount(p);
        DetProductPow(g, h, TWeight(n), TCount(p), TCount(names));
      }
    }
  }

  /** The gates from_sequence records: the names other than I, in order, or none when a Pauli
      occurs. */
  function RecordedGates(names: seq<string>): Option<seq<string>> {
    if HasPauli(names) then None else Some(WithoutI(names))
  }

  lemma RecordedGatesStep(names: seq<string>, before: Option<seq<string>>, entry: Option<seq<string>>)
    requires |names| > 0
    requires before == RecordedGates(names[..|names| - 1])
    requires entry == GateWord(names[|names| - 1])
    ensures JoinGates(before, entry) == RecordedGates(names)
  {
    PrefixFacts(names);
  }

  lemma {:induction false} SequenceProductGates(t: GateTable, names: seq<string>)
    requires WellFormedTable(t) && AllKnown(names)
    ensures SequenceProduct(t, names).Some?
    ensures SequenceProduct(t, names).value.gates == RecordedGates(names)
  {
    SequenceProductDet(t, names);
    if |names| > 0 {
      var p, n := names[..|names| - 1], names[|names| - 1];
      PrefixFacts(names);
      SequenceProductGates(t, p);
      LookupFacts(t, n);
      var g, h := Lookup(t, n).value, SequenceProduct(t, p).value;
      assert SequenceProduct(t, names) == MatMul(g, h);
      RecordedGatesStep(names, h.gates, g.gates);
    } else {
      assert !HasPauli(names) && WithoutI(names) == [];
    }
  }

  lemma {:induction false} EmbedPow(z: Z2.ZSqrt2, k: nat)
    ensures W.Embed(Z2.Pow(z, k)) == W.Pow(W.Embed(z), k)
  {
    if k > 0 {
      EmbedPow(z, k - 1);
      W.EmbedMul(z, Z2.Pow(z, k - 1));
    }
  }

  /** For a sequence of keys with k T gates, u @ u.adjoint() == ISqrt2 * lambda^k, lambda the
      element 2 + sqrt 2 of Z[w]: the property `test_adjoint` checks. */
  lemma SequenceProductAdjoint(t: GateTable, names: seq<string>)
    requires WellFormedTable(t) && AllKnown(names)
    ensures SequenceProduct(t, names).Some?
    ensures var u := SequenceProduct(t, names).value;
      && MatMul(u, Adjoint(u)).Some?
      && MatMul(u, Adjoint(u)).value.m
         == Times(ISqrt2(), W.Pow(W.Embed(Z2.LambdaKliuchnikov), TCount(names))).m
  {
    SequenceProductDet(t, names);
    var u := SequenceProduct(t, names).value;
    AdjointProduct(u, Z2.Pow(Z2.LambdaKliuchnikov, TCount(names)));
    EmbedPow(Z2.LambdaKliuchnikov, TCount(names));
  }

  lemma {:induction false} UnknownPersists(t: GateTable, names: seq<string>, k: nat)
    requires k <= |names| && SequenceProduct(t, names[..k]).None?
    ensures SequenceProduct(t, names).None?
    decreases |names| - k
  {
    if k < |names| {
      var q := names[..k + 1];
      assert q[..k] == names[..k] && q[k] == names[k];
      UnknownPersists(t, names, k + 1);
    } else {
      assert names[..k] == names;
    }
  }

  /** `from_sequence(seq)`, the loop of the source, with the table as a parameter. */
  method FromSequence(t: GateTable, names: seq<string>) returns (r: Option<SU2>)
    ensures r == SequenceProduct(t, names)
  {
    var u := t.i;
    for i := 0 to |names|
      invariant SequenceProduct(t, names[..i]) == Some(u)
    {
      assert names[..i + 1][..i] == names[..i];
      var g := Lookup(t, names[i]);
      if g.None? {
        UnknownPersists(t, names, i + 1);
        return None;
      }
      var p := MatMul(g.value, u);
      if p.None? {
        UnknownPersists(t, names, i + 1);
        return None;
      }
      u := p.value;
    }
    assert names[..|names|] == names;
    r := Some(u);
  }
}
