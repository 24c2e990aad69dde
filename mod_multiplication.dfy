// Modular doubling and controlled modular multiplication by a constant
// (qualtran/bloqs/mod_arithmetic/mod_multiplication.py): their validators, classical action
// and call graphs.  Only concrete (non-symbolic) moduli and constants are modelled.

module ModMultiplication {
  import opened Wrappers
  import PyInt
  import BitTools

  datatype ModError =
    | EvenModulus      // the assertion in ModDbl's modulus validator
    | ConstantOutOfRange  // the assertion `0 < k < mod` of CModMulK

  /** `ModDbl(dtype, mod)`; the register type matters here only through its width. */
  datatype ModDbl = ModDbl(bitsize: nat, mod: int)

  /** The validator: a concrete modulus must be odd (Python's `mod % 2 == 1`). */
  function MakeModDbl(bitsize: nat, mod: int): (r: Result<ModDbl, ModError>)
    ensures r.Ok? <==> PyInt.Mod(mod, 2) == 1
    ensures r.Ok? ==> r.value == ModDbl(bitsize, mod) && r.value.mod != 0
    ensures r.Err? ==> r.error == EvenModulus
  {
    if PyInt.Mod(mod, 2) == 1 then Ok(ModDbl(bitsize, mod)) else Err(EvenModulus)
  }

  /** `on_classical_vals`: x becomes (x + x) % mod when x < mod and is kept otherwise. */
  function ModDblVals(g: ModDbl, x: int): int
    requires g.mod != 0
  {
    if x < g.mod then PyInt.Mod(x + x, g.mod) else x
  }

  /** Halving modulo an odd p: the inverse of doubling. */
  function HalveMod(p: int, y: int): int {
    if y % 2 == 0 then y / 2 else (y + p) / 2
  }

  /** Python's % by a positive modulus is Dafny's. */
  lemma PyModIsMod(a: int, p: int)
    requires p >= 1
    ensures PyInt.Mod(a, p) == a % p
  {
    BitTools.DivModUnique(a, p, PyInt.FloorDiv(a, p), PyInt.Mod(a, p));
  }

  /** Doubling a residue x below an odd p gives 2x, or 2x - p once that reaches p. */
  lemma DoubleResidue(p: int, x: int)
    requires p >= 1 && 0 <= x < p
    ensures PyInt.Mod(x + x, p) == if 2 * x < p then 2 * x else 2 * x - p
  {
    PyModIsMod(x + x, p);
    if 2 * x < p {
      BitTools.DivModUnique(2 * x, p, 0, 2 * x);
    } else {
      BitTools.DivModUnique(2 * x, p, 1, 2 * x - p);
    }
  }

  /** For an odd modulus p, doubling keeps [0, p) and stays equal to 2x modulo p there, fixes
      every value from p up, and is undone by halving modulo p in both orders, so it is a
      permutation of [0, p). */
  lemma {:induction false} ModDblSpec(g: ModDbl, x: int, y: int)
    requires g.mod > 0 && g.mod % 2 == 1
    ensures x >= g.mod ==> ModDblVals(g, x) == x
    ensures 0 <= x < g.mod ==>
      var d := ModDblVals(g, x);
      && 0 <= d < g.mod
      && (d == 2 * x || d == 2 * x - g.mod)
      && HalveMod(g.mod, d) == x
    ensures 0 <= y < g.mod ==> 0 <= HalveMod(g.mod, y) < g.mod && ModDblVals(g, HalveMod(g.mod, y)) == y
  {
    if 0 <= x < g.mod {
      DoubleThenHalve(g, x);
    }
    if 0 <= y < g.mod {
      HalveThenDouble(g, y);
    }
  }

  lemma DoubleThenHalve(g: ModDbl, x: int)
    requires g.mod > 0 && g.mod % 2 == 1 && 0 <= x < g.mod
    ensures var d := ModDblVals(g, x);
      && 0 <= d < g.mod && (d == 2 * x || d == 2 * x - g.mod) && HalveMod(g.mod, d) == x
  {
    var p := g.mod;
    DoubleResidue(p, x);
    if 2 * x < p {
      assert (2 * x) % 2 == 0;
    } else {
      assert (2 * x - p) % 2 == 1;
      assert (2 * x - p + p) / 2 == x;
    }
  }

  lemma HalveThenDouble(g: ModDbl, y: int)
    requires g.mod > 0 && g.mod % 2 == 1 && 0 <= y < g.mod
    ensures 0 <= HalveMod(g.mod, y) < g.mod && ModDblVals(g, HalveMod(g.mod, y)) == y
  {
    var p := g.mod;
    var h := HalveMod(p, y);
    if y % 2 == 0 {
      assert 2 * h == y;
    } else {
      assert 2 * h == y + p;
    }
    DoubleResidue(p, h);
  }

  /** Doubling modulo an odd p sends distinct residues to distinct residues. */
  lemma {:induction false} ModDblInjective(g: ModDbl, x: int, y: int)
    requires g.mod > 0 && g.mod % 2 == 1
    requires 0 <= x < g.mod && 0 <= y < g.mod && ModDblVals(g, x) == ModDblVals(g, y)
    ensures x == y
  {
    ModDblSpec(g, x, 0);
    ModDblSpec(g, y, 0);
  }

  /** The bloqs the two call graphs mention; a symbolic constant is a name. */
  datatype Callee =
    | AddK(bitsize: nat, k: int, signed: bool, cvs: seq<int>)
    | CNOT
    | XGate
    | CtrlScaleModAdd(kSymbol: string, bitsize: nat, mod: int)
    | CSwap(bitsize: nat)

  /** ModDbl's call graph: subtract p on n + 2 bits, add p back on n + 1 bits controlled
      on the sign, one CNOT and two X gates. */
  function ModDblCallees(g: ModDbl): map<Callee, nat> {
    map[AddK(g.bitsize + 2, -g.mod, false, []) := 1,
        AddK(g.bitsize + 1, g.mod, false, [1]) := 1,
        CNOT := 1,
        XGate := 2]
  }

  /** The call graph has two constant additions that cancel each other's constant,
      and five gates in all. */
  lemma ModDblCallGraph(g: ModDbl)
    ensures var c := ModDblCallees(g);
      && |c.Keys| == 4
      && (set b | b in c && b.AddK? :: b.k) == {-g.mod, g.mod}
      && (forall b | b in c && b.AddK? :: c[b] == 1)
      && c[CNOT] + c[XGate] == 3
  {
    var c := ModDblCallees(g);
    var a1, a2 := AddK(g.bitsize + 2, -g.mod, false, []), AddK(g.bitsize + 1, g.mod, false, [1]);
    assert a1 != a2;
    assert c.Keys == {a1, a2, CNOT, XGate};
    assert (set b | b in c && b.AddK? :: b.k) == {-g.mod, g.mod} by {
      assert forall b | b in c && b.AddK? :: b == a1 || b == a2;
    }
  }

  // ---------------------------------------------------------------------------------
  // CModMulK

  /** `CModMulK(dtype, k, mod)`. */
  datatype CModMulK = CModMulK(bitsize: nat, k: int, mod: int)

  /** `__attrs_post_init__`: a concrete constant must satisfy 0 < k < mod. */
  function MakeCModMulK(bitsize: nat, k: int, mod: int): (r: Result<CModMulK, ModError>)
    ensures r.Ok? <==> 0 < k < mod
    ensures r.Ok? ==> r.value == CModMulK(bitsize, k, mod)
    ensures r.Err? ==> r.error == ConstantOutOfRange
  {
    if 0 < k < mod then Ok(CModMulK(bitsize, k, mod)) else Err(ConstantOutOfRange)
  }

  /** `on_classical_vals(ctrl, x)`: x becomes (x·k) % mod when ctrl is set (non-zero) and
      x < mod; ctrl is always returned as it came. */
  function CModMulKVals(g: CModMulK, ctrl: int, x: int): (int, int)
    requires 0 < g.k < g.mod
  {
    if ctrl != 0 && x < g.mod then (ctrl, PyInt.Mod(x * g.k, g.mod)) else (ctrl, x)
  }

  /** The control never changes; an unset control or a value from mod up leaves x alone,
      and otherwise x becomes the residue of x·k. */
  lemma CModMulKSpec(g: CModMulK, ctrl: int, x: int)
    requires 0 < g.k < g.mod
    ensures CModMulKVals(g, ctrl, x).0 == ctrl
    ensures ctrl == 0 || x >= g.mod ==> CModMulKVals(g, ctrl, x).1 == x
    ensures ctrl != 0 && x < g.mod ==>
      var y := CModMulKVals(g, ctrl, x).1;
      0 <= y < g.mod && (y - x * g.k) % g.mod == 0
  {
    if ctrl != 0 && x < g.mod {
      var y := CModMulKVals(g, ctrl, x).1;
      assert y - x * g.k == -PyInt.FloorDiv(x * g.k, g.mod) * g.mod;
      BitTools.DivModUnique(y - x * g.k, g.mod, -PyInt.FloorDiv(x * g.k, g.mod), 0);
    }
  }

  /** (a % p)·b and a·b have the same residue. */
  lemma {:induction false} ModMulLeft(a: int, b: int, p: int)
    requires p >= 1
    ensures ((a % p) * b) % p == (a * b) % p
  {
    var q, r := a / p, a % p;
    var q2, r2 := (r * b) / p, (r * b) % p;
    assert a * b == (q * p + r) * b;
    assert (q * p + r) * b == p * (q * b) + r * b;
    assert a * b == p * (q * b + q2) + r2;
    BitTools.DivModUnique(a * b, p, q * b + q2, r2);
  }

  /** Multiplying a residue by k and then by an inverse of k gives it back. */
  lemma {:induction false} TimesInverse(x: int, k: int, kInv: int, p: int)
    requires p >= 1 && (k * kInv) % p == 1 && 0 <= x < p
    ensures (((x * k) % p) * kInv) % p == x
  {
    ModMulLeft(x * k, kInv, p);
    assert (x * k) * kInv == (k * kInv) * x;
    ModMulLeft(k * kInv, x, p);
    BitTools.SmallMod(x, p);
  }

  /** With kInv the inverse of k modulo p, multiplying by kInv undoes multiplying by k for
      every residue and every control value. */
  lemma {:induction false} CModMulKInverse(g: CModMulK, kInv: int, ctrl: int, x: int)
    requires 0 < g.k < g.mod && 0 < kInv < g.mod && (g.k * kInv) % g.mod == 1
    requires 0 <= x < g.mod
    ensures var (c1, x1) := CModMulKVals(g, ctrl, x);
      CModMulKVals(CModMulK(g.bitsize, kInv, g.mod), c1, x1) == (ctrl, x)
  {
    if ctrl != 0 {
      var p := g.mod;
      PyModIsMod(x * g.k, p);
      var y := (x * g.k) % p;
      PyModIsMod(y * kInv, p);
      TimesInverse(x, g.k, kInv, p);
    }
  }

  /** CModMulK's call graph: two controlled scaled modular additions with a fresh symbolic
      constant (`ssa.new_symbol('k')`, here named by it) and one CSwap of the register
      width. */
  function CModMulKCallees(g: CModMulK, kSymbol: string): (c: map<Callee, nat>)
    ensures c.Keys == {CtrlScaleModAdd(kSymbol, g.bitsize, g.mod), CSwap(g.bitsize)}
    ensures c[CtrlScaleModAdd(kSymbol, g.bitsize, g.mod)] == 2 && c[CSwap(g.bitsize)] == 1
  {
    map[CtrlScaleModAdd(kSymbol, g.bitsize, g.mod) := 2, CSwap(g.bitsize) := 1]
  }
}
