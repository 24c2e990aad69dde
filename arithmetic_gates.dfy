// Comparison gates (cirq_qubitization/cirq_algos/arithmetic_gates.py): LessThanGate
// U_a|x>|z> = |x>|z ^ (x < a)> and LessThanEqualGate U|x>|y>|z> = |x>|y>|z ^ (x <= y)>, their
// classical action, their T complexity, and the classical logic of LessThanGate's
// decomposition into a most-significant-bit-first scan.

module ArithmeticGates {
  import opened Wrappers
  import BitTools
  import PyInt

  /** `t ^ b` for a Python int t and a bool b: flips the lowest bit of t when b holds (Python
      ints are two's complement, so the flip is the same rule for negative t). */
  function XorBit(t: int, b: bool): int {
    if !b then t else if t % 2 == 0 then t + 1 else t - 1
  }

  /** The target changes exactly when the condition holds, and xoring twice restores it. */
  lemma XorBitSpec(t: int, b: bool)
    ensures XorBit(t, b) != t <==> b
    ensures XorBit(XorBit(t, b), b) == t
    ensures 0 <= t < 2 ==> 0 <= XorBit(t, b) < 2
  {
  }

  // ---------------------------------------------------------------------------------
  // LessThanGate

  /** `LessThanGate(input_register, val)`: the register's qubit dimensions and the constant. */
  datatype LessThanGate = LessThanGate(inputRegister: seq<int>, val: int)

  /** `registers()`: the input register, the constant, and a one-qubit target `[2]`. */
  datatype LessThanRegisters = LessThanRegisters(input: seq<int>, val: int, target: seq<int>)

  function Registers(g: LessThanGate): LessThanRegisters {
    LessThanRegisters(g.inputRegister, g.val, [2])
  }

  /** `with_registers(*new_registers)`: a gate from the first two of them. */
  function WithRegisters(r: LessThanRegisters): LessThanGate {
    LessThanGate(r.input, r.val)
  }

  /** with_registers of a gate's own registers gives the gate back, and a gate built from
      registers keeps their widths and constant and has the one-qubit target. */
  lemma RegistersRoundTrip(g: LessThanGate, r: LessThanRegisters)
    ensures WithRegisters(Registers(g)) == g
    ensures Registers(WithRegisters(r)) == r.(target := [2])
  {
  }

  /** `apply(input_val, max_val, target_register_val)`. */
  function Apply(x: int, maxVal: int, target: int): (int, int, int) {
    (x, maxVal, XorBit(target, x < maxVal))
  }

  /** apply keeps the inputs, flips the target exactly when x < a, and undoes itself. */
  lemma ApplySpec(x: int, a: int, t: int)
    ensures Apply(x, a, t).0 == x && Apply(x, a, t).1 == a
    ensures Apply(x, a, t).2 != t <==> x < a
    ensures var (x1, a1, t1) := Apply(x, a, t); Apply(x1, a1, t1) == (x, a, t)
  {
    XorBitSpec(t, x < a);
  }

  /** `TComplexity(t, clifford)`. */
  datatype TComplexity = TComplexity(t: nat, clifford: nat)

  /** `int.bit_count()`: the one bits of |v|. */
  function BitCount(v: int): nat {
    PopCount(PyInt.Abs(v))
  }

  function PopCount(v: nat): nat {
    if v == 0 then 0 else v % 2 + PopCount(v / 2)
  }

  /** `_t_complexity_`: a single Clifford (a NOT on the target) when the constant is at
      least 2^n, otherwise 4n T gates and 15n + 3·popcount(val) + 2 Cliffords. */
  function LessThanTComplexity(g: LessThanGate): TComplexity {
    var n := |g.inputRegister|;
    if g.val >= BitTools.Pow2(n) then TComplexity(0, 1)
    else TComplexity(4 * n, 15 * n + 3 * BitCount(g.val) + 2)
  }

  /** The number of one bits of a bit sequence. */
  function Ones(b: seq<int>): nat {
    if b == [] then 0 else Ones(b[..|b| - 1]) + (if b[|b| - 1] == 1 then 1 else 0)
  }

  /** Every one bit the decomposition scans (iter_bits(val, n)) costs three Cliffords
      beyond the 15n + 2 every scan costs, and there are popcount(val) of them. */
  lemma {:induction false} LessThanCliffordsPerOneBit(g: LessThanGate)
    requires 0 <= g.val < BitTools.Pow2(|g.inputRegister|)
    ensures var n := |g.inputRegister|;
      && BitTools.IterBits(g.val, n).Ok?
      && LessThanTComplexity(g) == TComplexity(4 * n, 15 * n + 3 * Ones(BitTools.IterBits(g.val, n).value) + 2)
  {
    var n := |g.inputRegister|;
    BitTools.IterBitsSpec(g.val, n);
    OnesOfFixedBits(g.val, n);
  }

  lemma {:induction false} OnesOfFixedBits(v: nat, n: nat)
    requires v < BitTools.Pow2(n)
    ensures Ones(BitTools.FixedBits(v, n)) == PopCount(v)
  {
    if n > 0 {
      var b := BitTools.FixedBits(v, n);
      assert b[..n - 1] == BitTools.FixedBits(v / 2, n - 1);
      OnesOfFixedBits(v / 2, n - 1);
    }
  }

  /** The value of a bit sequence with one more bit appended. */
  lemma {:induction false} ValueSnoc(p: seq<int>, c: int)
    ensures BitTools.Value(p + [c]) == 2 * BitTools.Value(p) + c
  {
    assert (p + [c])[..|p|] == p;
  }

  /** Big-endian comparison one bit further: a prefix already smaller stays smaller, and
      equal prefixes are decided by the new bits. */
  lemma {:induction false} CompareSnoc(p: seq<int>, q: seq<int>, b: int, c: int)
    requires BitTools.IsBits(p) && BitTools.IsBits(q) && |p| == |q|
    requires 0 <= b < 2 && 0 <= c < 2
    ensures (BitTools.Value(p + [b]) < BitTools.Value(q + [c])) <==>
      BitTools.Value(p) < BitTools.Value(q) || (p == q && b < c)
  {
    ValueSnoc(p, b);
    ValueSnoc(q, c);
    if BitTools.Value(p) == BitTools.Value(q) {
      BitTools.ValueInjective(p, q);
    }
  }

  /** The decomposition of LessThanGate, run on classical bits x (most significant first)
      and target value t: a constant of at least 2^n is a lone NOT on the target;
      otherwise `are_equal` starts true and, for each bit b of val and qubit q, the ancilla
      takes `are_equal` and (q != b) when b is 1 (which also flips the target) and
      `are_equal` and q when b is 0, and is xored into `are_equal`.  iter_bits refuses a
      negative constant, and so does the decomposition.  It computes what apply does. */
  method LessThanDecomposition(g: LessThanGate, x: seq<int>, target: int) returns (r: Option<int>)
    requires |x| == |g.inputRegister| && BitTools.IsBits(x)
    ensures r.Some? <==> g.val >= 0
    ensures r.Some? ==> r.value == Apply(BitTools.Value(x), g.val, target).2
  {
    var n := |g.inputRegister|;
    if g.val >= BitTools.Pow2(n) {
      BitTools.ValueBound(x);
      return Some(XorBit(target, true));
    }
    var bits := BitTools.IterBits(g.val, n);
    if bits.Err? {
      BitTools.IterBitsSpec(g.val, n);
      return None;
    }
    BitTools.IterBitsSpec(g.val, n);
    var t := Scan(x, bits.value, target);
    r := Some(t);
  }

  /** The loop state of the scan after i bits: `are_equal` says the prefixes are equal, and
      the target has been flipped exactly when the prefix of x is below that of val. */
  ghost predicate Scanned(x: seq<int>, vb: seq<int>, i: nat, areEqual: bool, target: int, t: int)
    requires i <= |x| && i <= |vb|
  {
    var lt := BitTools.Value(x[..i]) < BitTools.Value(vb[..i]);
    && (areEqual <==> x[..i] == vb[..i])
    && (areEqual ==> !lt)
    && t == XorBit(target, lt)
  }

  /** One step of the scan: the ancilla, the target update and the new `are_equal`. */
  lemma {:induction false} ScanStep(x: seq<int>, vb: seq<int>, i: nat, areEqual: bool, target: int, t: int)
    requires BitTools.IsBits(x) && BitTools.IsBits(vb) && |x| == |vb| && i < |x|
    requires Scanned(x, vb, i, areEqual, target, t)
    ensures var a := if vb[i] == 1 then areEqual && 1 - x[i] == 1 else areEqual && x[i] == 1;
      Scanned(x, vb, i + 1, areEqual != a, target, if vb[i] == 1 then XorBit(t, a) else t)
  {
    assert BitTools.IsBits(x[..i]) && BitTools.IsBits(vb[..i]);
    CompareSnoc(x[..i], vb[..i], x[i], vb[i]);
    assert x[..i + 1] == x[..i] + [x[i]] && vb[..i + 1] == vb[..i] + [vb[i]];
  }

  /** The scan over the bits of x and of val, most significant first. */
  method Scan(x: seq<int>, vb: seq<int>, target: int) returns (t: int)
    requires BitTools.IsBits(x) && BitTools.IsBits(vb) && |x| == |vb|
    ensures t == XorBit(target, BitTools.Value(x) < BitTools.Value(vb))
  {
    var areEqual := true;
    t := target;
    var i := 0;
    while i < |x|
      invariant 0 <= i <= |x|
      invariant Scanned(x, vb, i, areEqual, target, t)
    {
      ScanStep(x, vb, i, areEqual, target, t);
      var a: bool;
      if vb[i] == 1 {
        a := areEqual && 1 - x[i] == 1;
        t := XorBit(t, a);
      } else {
        a := areEqual && x[i] == 1;
      }
      areEqual := areEqual != a;
      i := i + 1;
    }
    assert x[..i] == x && vb[..i] == vb;
  }

  // ---------------------------------------------------------------------------------
  // LessThanEqualGate

  /** `LessThanEqualGate(first_input_register, second_input_register)`. */
  datatype LessThanEqualGate = LessThanEqualGate(firstInputRegister: seq<int>, secondInputRegister: seq<int>)

  datatype LessThanEqualRegisters = LessThanEqualRegisters(first: seq<int>, second: seq<int>, target: seq<int>)

  function EqualRegisters(g: LessThanEqualGate): LessThanEqualRegisters {
    LessThanEqualRegisters(g.firstInputRegister, g.secondInputRegister, [2])
  }

  function EqualWithRegisters(r: LessThanEqualRegisters): LessThanEqualGate {
    LessThanEqualGate(r.first, r.second)
  }

  /** with_registers of the gate's own registers gives the gate back; rebuilt registers keep
      both input widths and have the one-qubit target. */
  lemma EqualRegistersRoundTrip(g: LessThanEqualGate, r: LessThanEqualRegisters)
    ensures EqualWithRegisters(EqualRegisters(g)) == g
    ensures EqualRegisters(EqualWithRegisters(r)) == r.(target := [2])
  {
  }

  /** `apply(first_input_val, second_input_val, target_register_val)`. */
  function ApplyLessEqual(x: int, y: int, target: int): (int, int, int) {
    (x, y, XorBit(target, x <= y))
  }

  /** apply keeps both inputs, flips the target exactly when x <= y, and applying it twice
      restores the target; it and the strict comparison flip complementary cases of the
      swapped inputs. */
  lemma ApplyLessEqualSpec(x: int, y: int, t: int)
    ensures ApplyLessEqual(x, y, t).0 == x && ApplyLessEqual(x, y, t).1 == y
    ensures ApplyLessEqual(x, y, t).2 != t <==> x <= y
    ensures var (x1, y1, t1) := ApplyLessEqual(x, y, t); ApplyLessEqual(x1, y1, t1) == (x, y, t)
    ensures ApplyLessEqual(x, y, t).2 != t <==> Apply(y, x, t).2 == t
  {
    XorBitSpec(t, x <= y);
    XorBitSpec(t, y < x);
  }
}
