// Kaliski's modular inverse as a reversible circuit
// (qualtran/bloqs/mod_arithmetic/mod_division.py): the classical action of the six steps of
// one Kaliski iteration, their call graphs, the iteration, and the full inverse, which runs
// 2n iterations and then negates r modulo p.

module ModDivision {
  import opened Wrappers
  import PyInt
  import BitTools
  import ModMultiplication

  /** A one-qubit register's value. */
  type Bit = b: int | 0 <= b < 2

  function Xor(x: Bit, y: Bit): Bit { if x == y then 0 else 1 }

  function And(x: Bit, y: Bit): Bit { if x == 1 && y == 1 then 1 else 0 }

  /** A comparison used as a bit (Python's bool in `&` and `^`). */
  function B(c: bool): Bit { if c then 1 else 0 }

  /** The registers the steps act on: four n-bit numbers and the one-bit flags b, a, m, f. */
  datatype KState = KState(u: int, v: int, r: int, s: int, b: Bit, a: Bit, m: Bit, f: Bit)

  // ---------------------------------------------------------------------------------
  // The six steps and their inverses

  /** Step 1: `m ^= f & (v == 0)`, then `f ^= m`. */
  function Step1(st: KState): KState {
    var m := Xor(st.m, And(st.f, B(st.v == 0)));
    st.(m := m, f := Xor(st.f, m))
  }

  function Step1Inverse(st: KState): KState {
    var f := Xor(st.f, st.m);
    st.(m := Xor(st.m, And(f, B(st.v == 0))), f := f)
  }

  /** Step 1 changes only m and f, is undone by its inverse in either order, and clears f
      (recording the fact in m) exactly when a live f meets v == 0 with m clear. */
  lemma Step1Spec(st: KState)
    ensures Step1(st) == st.(m := Step1(st).m, f := Step1(st).f)
    ensures Step1Inverse(Step1(st)) == st && Step1(Step1Inverse(st)) == st
    ensures st.m == 0 ==> (Step1(st).f == 0 <==> st.f == 0 || st.v == 0)
    ensures st.m == 0 && st.f == 1 && st.v == 0 ==> Step1(st).m == 1
  {
  }

  /** Step 2: `a ^= (u even) & f`, `m ^= (v even) & (a == 0) & f`, `b ^= a`, `b ^= m`. */
  function Step2(st: KState): KState {
    var a := Xor(st.a, And(B(st.u % 2 == 0), st.f));
    var m := Xor(st.m, And(And(B(st.v % 2 == 0), B(a == 0)), st.f));
    st.(a := a, m := m, b := Xor(Xor(st.b, a), m))
  }

  function Step2Inverse(st: KState): KState {
    var b := Xor(Xor(st.b, st.a), st.m);
    var m := Xor(st.m, And(And(B(st.v % 2 == 0), B(st.a == 0)), st.f));
    st.(b := b, m := m, a := Xor(st.a, And(B(st.u % 2 == 0), st.f)))
  }

  /** Step 2 changes only a, m and b, and is undone by its inverse in either order; with
      clear flags and a live f, a says u is even, m says v is even while u is odd, and b
      that either holds. */
  lemma Step2Spec(st: KState)
    ensures Step2(st) == st.(a := Step2(st).a, m := Step2(st).m, b := Step2(st).b)
    ensures Step2Inverse(Step2(st)) == st && Step2(Step2Inverse(st)) == st
    ensures st.a == 0 && st.m == 0 && st.b == 0 && st.f == 1 ==>
      && (Step2(st).a == 1 <==> st.u % 2 == 0)
      && (Step2(st).m == 1 <==> st.u % 2 != 0 && st.v % 2 == 0)
      && (Step2(st).b == 1 <==> st.u % 2 == 0 || st.v % 2 == 0)
  {
  }

  /** Step 3: with c = (u > v) & (b == 0) & f, `a ^= c` and `m ^= c`. */
  function Step3(st: KState): KState {
    var c := And(And(B(st.u > st.v), B(st.b == 0)), st.f);
    st.(a := Xor(st.a, c), m := Xor(st.m, c))
  }

  /** Step 3 flips a and m together, exactly when f is set, b is clear and u > v, and is
      its own inverse. */
  lemma Step3Spec(st: KState)
    ensures Step3(st) == st.(a := Step3(st).a, m := Step3(st).m)
    ensures (Step3(st).a != st.a) == (Step3(st).m != st.m) == (st.u > st.v && st.b == 0 && st.f == 1)
    ensures Step3(Step3(st)) == st
  {
  }

  /** Step 4: when a is set, swap u with v and r with s. */
  function Step4(st: KState): KState {
    if st.a != 0 then st.(u := st.v, v := st.u, r := st.s, s := st.r) else st
  }

  /** Step 4 exchanges the pairs exactly when a is set and is its own inverse. */
  lemma Step4Spec(st: KState)
    ensures st.a == 0 ==> Step4(st) == st
    ensures st.a == 1 ==> Step4(st) == st.(u := st.v, v := st.u, r := st.s, s := st.r)
    ensures Step4(Step4(st)) == st
  {
  }

  /** Step 5: when f is set and b is clear, `v -= u` and `s += r`. */
  function Step5(st: KState): KState {
    if st.f != 0 && st.b == 0 then st.(v := st.v - st.u, s := st.s + st.r) else st
  }

  function Step5Inverse(st: KState): KState {
    if st.f != 0 && st.b == 0 then st.(v := st.v + st.u, s := st.s - st.r) else st
  }

  /** Step 5 changes only v and s, exactly when f is set and b is clear, and is undone by
      its inverse in either order. */
  lemma Step5Spec(st: KState)
    ensures Step5(st) == st.(v := Step5(st).v, s := Step5(st).s)
    ensures Step5(st) != st <==> st.f == 1 && st.b == 0 && (st.u != 0 || st.r != 0)
    ensures Step5Inverse(Step5(st)) == st && Step5(Step5Inverse(st)) == st
  {
  }

  /** Step 6: `b ^= m`, `b ^= a`; halve v (`v >>= 1`) when f is set; `r = 2r mod p`; when
      a is set swap r with s and u with v; flip a when s is even. */
  function Step6(p: int, st: KState): KState
    requires p != 0
  {
    var b := Xor(Xor(st.b, st.m), st.a);
    var v1 := if st.f != 0 then PyInt.FloorDiv(st.v, 2) else st.v;
    var r1 := PyInt.Mod(2 * st.r, p);
    var (u2, v2, r2, s2) := if st.a != 0 then (v1, st.u, st.s, r1) else (st.u, v1, r1, st.s);
    KState(u2, v2, r2, s2, b, if s2 % 2 == 0 then Xor(st.a, 1) else st.a, st.m, st.f)
  }

  /** The inverse of step 6, for an odd modulus: undo the flip of a, the swap, the doubling
      (by halving modulo p) and the halving of v. */
  function Step6Inverse(p: int, st: KState): KState {
    var a := if st.s % 2 == 0 then Xor(st.a, 1) else st.a;
    var (v1, u, s, r1) := if a != 0 then (st.u, st.v, st.r, st.s) else (st.v, st.u, st.s, st.r);
    KState(u, if st.f != 0 then 2 * v1 else v1, ModMultiplication.HalveMod(p, r1), s,
           Xor(Xor(st.b, st.m), a), a, st.m, st.f)
  }

  /** Step 6 doubles r as ModDbl does, leaves m and f alone, and, for an odd modulus, is
      undone by its inverse on every state it is meant for: r a residue, and v even when f
      asks to halve it. */
  lemma Step6Spec(p: int, n: nat, st: KState)
    requires p > 0 && p % 2 == 1
    ensures var st6 := Step6(p, st);
      && st6.m == st.m && st6.f == st.f
      && (0 <= st.r < p ==> var d := ModMultiplication.ModDblVals(ModMultiplication.ModDbl(n, p), st.r);
            if st.a != 0 then st6.s == d else st6.r == d)
    ensures 0 <= st.r < p && (st.f != 0 ==> st.v % 2 == 0) ==> Step6Inverse(p, Step6(p, st)) == st
  {
    ModMultiplication.ModDblSpec(ModMultiplication.ModDbl(n, p), st.r, 0);
  }

  // ---------------------------------------------------------------------------------
  // Call graphs

  /** The bloqs the steps and the inverse call. */
  datatype Callee =
    | MultiAnd(cvs: seq<int>, adjoint: bool)
    | AndGate(cv1: int, cv2: int, adjoint: bool)
    | CNOT
    | XGate
    | LinearDepthGreaterThan(bitsize: nat, signed: bool)
    | CSwapApprox(bitsize: nat)
    | BitwiseNot(bitsize: nat)
    | CAdd(bitsize: nat)
    | ModDbl(bitsize: nat, mod: int)
    | TwoBitCSwap
    | KaliskiIteration(bitsize: nat, mod: int)
    | AddK(bitsize: nat, k: int, signed: bool)

  function Zeros(n: nat): (z: seq<int>)
    ensures |z| == n && forall i | 0 <= i < n :: z[i] == 0
  {
    seq(n, i => 0)
  }

  /** `build_call_graph` of step k (1 to 6) for n-bit registers. */
  function StepCallees(k: int, n: nat, p: int): map<Callee, int>
    requires 1 <= k <= 6
  {
    if k == 1 then map[MultiAnd(Zeros(n), false) := 1, MultiAnd(Zeros(n), true) := 1, CNOT := 2]
    else if k == 2 then
      map[AndGate(1, 0, false) := 1, AndGate(1, 0, true) := 1, CNOT := 4,
          MultiAnd([1, 0, 0], false) := 1, MultiAnd([1, 0, 0], true) := 1]
    else if k == 3 then
      map[LinearDepthGreaterThan(n, false) := 2, MultiAnd([1, 1, 0], false) := 1,
          MultiAnd([1, 1, 0], true) := 1, CNOT := 2]
    else if k == 4 then map[CSwapApprox(n) := 2]
    else if k == 5 then
      map[AndGate(1, 0, false) := 1, AndGate(1, 0, true) := 1, BitwiseNot(n) := 2, CAdd(n) := 2]
    else map[CNOT := 4, XGate := 2, ModDbl(n, p) := 1, CSwapApprox(n) := 2, TwoBitCSwap := n - 1]
  }

  /** `_KaliskiModInverseImpl.build_call_graph` (also KaliskiModInverse's): 2n iterations,
      a complement and a constant addition of r, and the X gate that sets f. */
  function ImplCallees(n: nat, p: int): map<Callee, int> {
    map[KaliskiIteration(n, p) := 2 * n, BitwiseNot(n) := 1, AddK(n, p + 1, false) := 1, XGate := 1]
  }

  /** Every gate of step 6's call graph has its counterpart in the classical action: the
      n - 1 controlled swaps halve v, ModDbl doubles r, and the two approximate swaps move
      u, v and r, s; step 4 is the same pair of swaps alone. */
  lemma CallGraphShapes(n: nat, p: int)
    requires n >= 1
    ensures StepCallees(6, n, p)[TwoBitCSwap] == n - 1 && StepCallees(6, n, p)[ModDbl(n, p)] == 1
    ensures StepCallees(4, n, p) == map[CSwapApprox(n) := 2]
    ensures StepCallees(6, n, p)[CSwapApprox(n)] == StepCallees(4, n, p)[CSwapApprox(n)]
    ensures ImplCallees(n, p)[KaliskiIteration(n, p)] == 2 * n
  {
  }

  // ---------------------------------------------------------------------------------
  // One iteration

  /** `KaliskiIteration`: allocate a and b as 0, run the six steps, free a and b. */
  function Iteration(p: int, st: KState): KState
    requires p != 0
  {
    Step6(p, Step5(Step4(Step3(Step2(Step1(st.(a := 0, b := 0)))))))
  }

  /** One step of Kaliski's almost-inverse when v != 0: halve an even u (doubling s),
      else an even v (doubling r), else halve the difference of the odd pair into the
      larger one, adding the other's coefficient. */
  function TextbookStep(u: int, v: int, r: int, s: int): (int, int, int, int) {
    if u % 2 == 0 then (u / 2, v, r, 2 * s)
    else if v % 2 == 0 then (u, v / 2, 2 * r, s)
    else if u > v then ((u - v) / 2, v, r + s, 2 * s)
    else (u, (v - u) / 2, 2 * r, s + r)
  }

  /** An iteration on a live state with v != 0 is one textbook step, with the doubled
      coefficient reduced modulo p; b comes back clear, m records which odd/even case ran,
      and a comes back clear iff s ends with the parity the case leaves it. */
  lemma IterationLive(p: int, st: KState)
    requires p != 0 && st.f == 1 && st.m == 0 && st.v != 0
    ensures var it := Iteration(p, st);
      var (u1, v1, r1, s1) := TextbookStep(st.u, st.v, st.r, st.s);
      var doubledS := st.u % 2 == 0 || (st.v % 2 != 0 && st.u > st.v);
      && it.u == u1 && it.v == v1
      && it.r == (if doubledS then r1 else PyInt.Mod(r1, p))
      && it.s == (if doubledS then PyInt.Mod(s1, p) else s1)
      && it.b == 0 && it.f == 1
      && it.m == B(st.u % 2 != 0 && (st.v % 2 == 0 || st.u > st.v))
      && it.a == (if doubledS then B(it.s % 2 != 0) else B(it.s % 2 == 0))
  {
  }

  /** An iteration on a state whose v is 0 only doubles r modulo p: a live f is cleared
      (recorded in m), and a and b come back clear iff s is odd. */
  lemma IterationFinished(p: int, st: KState)
    requires p != 0 && st.m == 0 && (st.v == 0 || st.f == 0)
    ensures var it := Iteration(p, st);
      && it == KState(st.u, st.v, PyInt.Mod(2 * st.r, p), st.s, 0, B(st.s % 2 == 0), st.f, 0)
  {
  }

  // ---------------------------------------------------------------------------------
  // Arithmetic used by the correctness proof

  predicate Divides(d: int, n: int)
    requires d >= 1
  {
    n % d == 0
  }

  /** x and y have no common divisor above 1. */
  ghost predicate Coprime(x: int, y: int) {
    forall d: int | d >= 2 :: !(Divides(d, x) && Divides(d, y))
  }

  lemma {:induction false} DividesLin(d: int, w: int, k: int, z: int)
    requires d >= 1 && Divides(d, w) && Divides(d, z)
    ensures Divides(d, k * w + z)
  {
    var q1, q2 := w / d, z / d;
    assert w == d * q1 && z == d * q2;
    assert k * w + z == d * (k * q1 + q2);
    BitTools.DivModUnique(k * w + z, d, k * q1 + q2, 0);
  }

  /** A combination of multiples of p and p itself is a multiple of p. */
  lemma {:induction false} ZeroModLin(e1: int, e2: int, c1: int, c2: int, k: int, p: int)
    requires p >= 1 && e1 % p == 0 && e2 % p == 0
    ensures (c1 * e1 + c2 * e2 + k * p) % p == 0
  {
    var q1, q2 := e1 / p, e2 / p;
    assert e1 == p * q1 && e2 == p * q2;
    assert c1 * e1 == p * (c1 * q1) && c2 * e2 == p * (c2 * q2);
    assert c1 * e1 + c2 * e2 + k * p == p * (c1 * q1 + c2 * q2 + k);
    BitTools.DivModUnique(c1 * e1 + c2 * e2 + k * p, p, c1 * q1 + c2 * q2 + k, 0);
  }

  lemma {:induction false} ProductParity(x: int, y: int)
    ensures (x * y) % 2 == (x % 2) * (y % 2)
  {
    var a, b, c, d := x / 2, x % 2, y / 2, y % 2;
    assert x * y == (2 * a + b) * (2 * c + d);
    assert (2 * a + b) * (2 * c + d) == 2 * (2 * a * c + a * d + b * c) + b * d;
    BitTools.DivModUnique(x * y, 2, 2 * a * c + a * d + b * c, b * d);
  }

  /** The parity of u·s + v·r for odd u and v is that of s + r; for v even, that of u·s. */
  lemma {:induction false} SumParity(u: int, s: int, v: int, r: int)
    requires u % 2 == 1
    ensures v % 2 == 1 ==> (u * s + v * r) % 2 == (s + r) % 2
    ensures v % 2 == 0 ==> (u * s + v * r) % 2 == s % 2
  {
    var a, b := u * s, v * r;
    ProductParity(u, s);
    ProductParity(v, r);
    assert a % 2 == s % 2;
    if v % 2 == 1 {
      assert b % 2 == r % 2;
      AddParity(s, r);
    } else {
      assert b % 2 == 0;
    }
    AddParity(a, b);
  }

  lemma {:induction false} AddParity(a: int, b: int)
    ensures (a + b) % 2 == (a % 2 + b % 2) % 2
  {
    var qa, qb := a / 2, b / 2;
    var ra, rb := a % 2, b % 2;
    assert a + b == 2 * (qa + qb) + (ra + rb);
    if ra + rb == 2 {
      BitTools.DivModUnique(a + b, 2, qa + qb + 1, 0);
    } else {
      BitTools.DivModUnique(a + b, 2, qa + qb, ra + rb);
    }
  }

  lemma {:induction false} SmallPyMod(x: int, p: int)
    requires 0 <= x < p
    ensures PyInt.Mod(x, p) == x
  {
    ModMultiplication.PyModIsMod(x, p);
    BitTools.SmallMod(x, p);
  }

  /** Reducing 2r modulo p changes it by a multiple of p. */
  lemma {:induction false} DoubledPyMod(r: int, p: int)
    requires p >= 1
    ensures 0 <= PyInt.Mod(2 * r, p) < p
    ensures PyInt.Mod(2 * r, p) == 2 * r - PyInt.FloorDiv(2 * r, p) * p
  {
  }

  lemma {:induction false} Pow2Add(a: nat, b: nat)
    ensures BitTools.Pow2(a + b) == BitTools.Pow2(a) * BitTools.Pow2(b)
  {
    if a > 0 {
      Pow2Add(a - 1, b);
      assert BitTools.Pow2(a + b) == 2 * BitTools.Pow2(a - 1 + b);
    }
  }

  /** For odd p, p dividing 2m divides m. */
  lemma {:induction false} HalfDivides(m: int, p: int)
    requires p >= 1 && p % 2 == 1
    ensures (2 * m) % p == 0 ==> m % p == 0
  {
    if (2 * m) % p == 0 {
      var q := (2 * m) / p;
      assert 2 * m == p * q;
      ProductParity(p, q);
      var t := q / 2;
      assert q == 2 * t;
      assert 2 * m == 2 * (p * t);
      BitTools.DivModUnique(m, p, t, 0);
    }
  }

  /** No odd p above 1 divides a power of two. */
  lemma {:induction false} OddNotDividesPow2(p: int, k: nat)
    requires p >= 3 && p % 2 == 1
    ensures BitTools.Pow2(k) % p != 0
  {
    if k == 0 {
      BitTools.SmallMod(1, p);
    } else {
      OddNotDividesPow2(p, k - 1);
      HalfDivides(BitTools.Pow2(k - 1), p);
    }
  }

  // ---------------------------------------------------------------------------------
  // The invariant of Kaliski's algorithm

  /** After j iterations on modulus p and input xm: u, s >= 1, v >= 0, r a residue, the
      exact identity p = u·s + v·r, u and v coprime, xm·s = v·2^j and xm·r = -u·2^j modulo
      p, and, while the loop is live, u·v·2^j <= p·xm (one of u, v halves every step). */
  ghost predicate Invariant(p: int, xm: int, j: nat, u: int, v: int, r: int, s: int, live: bool) {
    && p >= 1
    && u >= 1 && v >= 0 && 0 <= r < p && s >= 1
    && p == u * s + v * r
    && Coprime(u, v)
    && (xm * s - v * BitTools.Pow2(j)) % p == 0
    && (xm * r + u * BitTools.Pow2(j)) % p == 0
    && (live ==> u * v * BitTools.Pow2(j) <= p * xm)
  }

  /** The invariant on a register state: a cleared f means v has reached 0. */
  ghost predicate Inv(p: int, xm: int, j: nat, st: KState) {
    && (st.f == 0 ==> st.v == 0)
    && Invariant(p, xm, j, st.u, st.v, st.r, st.s, st.f == 1)
  }

  lemma MulNonneg(a: int, b: int)
    requires a >= 0 && b >= 0
    ensures a * b >= 0
  {
  }

  lemma {:induction false} CongDouble(p: int, e: int)
    requires p >= 1 && e % p == 0
    ensures (2 * e) % p == 0
  {
    ZeroModLin(e, 0, 2, 0, 0, p);
  }

  lemma {:induction false} CongSum(p: int, e1: int, e2: int)
    requires p >= 1 && e1 % p == 0 && e2 % p == 0
    ensures (e1 + e2) % p == 0
  {
    ZeroModLin(e1, e2, 1, 1, 0, p);
  }

  /** xm·r + u·2^j stays a multiple of p when r is doubled modulo p and j grows by one. */
  lemma {:induction false} DoubledCong(p: int, xm: int, r: int, u: int, P: int)
    requires p >= 1 && (xm * r + u * P) % p == 0
    ensures (xm * PyInt.Mod(2 * r, p) + u * (2 * P)) % p == 0
  {
    var R, q := PyInt.Mod(2 * r, p), PyInt.FloorDiv(2 * r, p);
    assert R == 2 * r - q * p;
    assert xm * R == 2 * (xm * r) - (xm * q) * p;
    assert xm * R + u * (2 * P) == 2 * (xm * r + u * P) + 0 * 0 + (-(xm * q)) * p;
    ZeroModLin(xm * r + u * P, 0, 2, 0, -(xm * q), p);
  }

  lemma CoprimeSym(x: int, y: int)
    requires Coprime(x, y)
    ensures Coprime(y, x)
  {
  }

  /** Halving a difference keeps coprimality: with x = 2w + c·y, a common divisor of w
      and y divides x. */
  lemma {:induction false} CoprimeOfCombination(x: int, y: int, w: int, c: int)
    requires Coprime(x, y) && x == 2 * w + c * y
    ensures Coprime(w, y)
  {
    forall d | d >= 1 && Divides(d, w) && Divides(d, y)
      ensures Divides(d, x)
    {
      DividesLin(d, y, c, 0);
      DividesLin(d, w, 2, c * y);
    }
  }

  /** Textbook step with u even: u/2 and 2s, and 2s stays below p. */
  lemma {:induction false} UEvenBounds(p: int, u: int, v: int, r: int, s: int)
    requires p % 2 == 1 && u % 2 == 0 && u >= 1 && v >= 1 && r >= 0 && s >= 1 && p == u * s + v * r
    ensures u / 2 >= 1 && 2 * s < p
  {
    var w := u / 2;
    assert u == 2 * w;
    BitTools.MulAtLeast(s, w);
    assert u * s == 2 * (s * w);
    MulNonneg(v, r);
  }

  lemma {:induction false} UEvenAlgebra(xm: int, u: int, v: int, r: int, s: int, P: int)
    requires u % 2 == 0
    ensures (u / 2) * (2 * s) == u * s
    ensures xm * (2 * s) - v * (2 * P) == 2 * (xm * s - v * P)
    ensures (u / 2) * (2 * P) == u * P
    ensures (u / 2) * v * (2 * P) == u * v * P
  {
    var w := u / 2;
    assert u == 2 * w;
  }

  lemma {:induction false} KeepsUEven(p: int, xm: int, j: nat, u: int, v: int, r: int, s: int)
    requires p % 2 == 1 && Invariant(p, xm, j, u, v, r, s, true) && v >= 1 && u % 2 == 0
    ensures PyInt.Mod(2 * s, p) == 2 * s
    ensures Invariant(p, xm, j + 1, u / 2, v, r, 2 * s, true)
  {
    var P := BitTools.Pow2(j);
    UEvenBounds(p, u, v, r, s);
    SmallPyMod(2 * s, p);
    UEvenAlgebra(xm, u, v, r, s, P);
    CoprimeOfCombination(u, v, u / 2, 0);
    CongDouble(p, xm * s - v * P);
    assert BitTools.Pow2(j + 1) == 2 * P;
  }

  /** Textbook step with u odd and v even: v/2 and 2r, 2r stays below p, and s is odd. */
  lemma {:induction false} VEvenBounds(p: int, u: int, v: int, r: int, s: int)
    requires p % 2 == 1 && u % 2 == 1 && v % 2 == 0 && u >= 1 && v >= 1 && r >= 0 && s >= 1
    requires p == u * s + v * r
    ensures v / 2 >= 1 && 2 * r < p && s % 2 == 1
  {
    var w := v / 2;
    assert v == 2 * w;
    BitTools.MulAtLeast(r, w);
    assert v * r == 2 * (r * w);
    MulNonneg(u, s);
    SumParity(u, s, v, r);
  }

  lemma {:induction false} VEvenAlgebra(xm: int, u: int, v: int, r: int, s: int, P: int)
    requires v % 2 == 0
    ensures (v / 2) * (2 * r) == v * r
    ensures (v / 2) * (2 * P) == v * P
    ensures xm * (2 * r) + u * (2 * P) == 2 * (xm * r + u * P)
    ensures u * (v / 2) * (2 * P) == u * v * P
  {
    var w := v / 2;
    assert v == 2 * w;
  }

  lemma {:induction false} KeepsVEven(p: int, xm: int, j: nat, u: int, v: int, r: int, s: int)
    requires p % 2 == 1 && Invariant(p, xm, j, u, v, r, s, true) && v >= 1 && u % 2 == 1 && v % 2 == 0
    ensures PyInt.Mod(2 * r, p) == 2 * r && s % 2 == 1
    ensures Invariant(p, xm, j + 1, u, v / 2, 2 * r, s, true)
  {
    var P := BitTools.Pow2(j);
    VEvenBounds(p, u, v, r, s);
    SmallPyMod(2 * r, p);
    VEvenAlgebra(xm, u, v, r, s, P);
    CoprimeSym(u, v);
    CoprimeOfCombination(v, u, v / 2, 0);
    CoprimeSym(v / 2, u);
    CongDouble(p, xm * r + u * P);
    assert BitTools.Pow2(j + 1) == 2 * P;
  }

  /** Textbook step with u > v both odd: (u - v)/2, r + s and 2s. */
  lemma {:induction false} UGreaterAlgebra(xm: int, u: int, v: int, r: int, s: int, P: int, w: int)
    requires u - v == 2 * w && v >= 0 && P >= 0
    ensures w * (2 * s) + v * (r + s) == u * s + v * r
    ensures xm * (2 * s) - v * (2 * P) == 2 * (xm * s - v * P)
    ensures xm * (r + s) + w * (2 * P) == (xm * r + u * P) + (xm * s - v * P)
    ensures w * v * (2 * P) <= u * v * P
  {
    assert w * (2 * s) == (u - v) * s;
    assert w * v * (2 * P) == u * v * P - v * v * P;
    MulNonneg(v * v, P);
  }

  lemma {:induction false} UGreaterBounds(p: int, u: int, v: int, r: int, s: int, w: int)
    requires p % 2 == 1 && u - v == 2 * w && u > v >= 1 && r >= 0 && s >= 1
    requires p == w * (2 * s) + v * (r + s)
    ensures w >= 1 && 2 * s < p && r + s < p
  {
    BitTools.MulAtLeast(2 * s, w);
    BitTools.MulAtLeast(r + s, v);
    assert w * (2 * s) == (2 * s) * w && v * (r + s) == (r + s) * v;
  }

  lemma {:induction false} KeepsUGreater(p: int, xm: int, j: nat, u: int, v: int, r: int, s: int, w: int)
    requires p % 2 == 1 && Invariant(p, xm, j, u, v, r, s, true) && v >= 1
    requires u > v && u - v == 2 * w
    ensures PyInt.Mod(2 * s, p) == 2 * s
    ensures Invariant(p, xm, j + 1, w, v, r + s, 2 * s, true)
  {
    var P := BitTools.Pow2(j);
    UGreaterAlgebra(xm, u, v, r, s, P, w);
    UGreaterBounds(p, u, v, r, s, w);
    SmallPyMod(2 * s, p);
    CoprimeOfCombination(u, v, w, 1);
    CongDouble(p, xm * s - v * P);
    CongSum(p, xm * r + u * P, xm * s - v * P);
    assert BitTools.Pow2(j + 1) == 2 * P;
  }

  /** Textbook step with u <= v both odd: (v - u)/2, 2r (reduced modulo p once v reaches
      0) and s + r, which is odd. */
  lemma {:induction false} ULessEqBounds(p: int, u: int, v: int, r: int, s: int, w: int)
    requires p % 2 == 1 && u % 2 == 1 && v % 2 == 1 && 1 <= u <= v && r >= 0 && s >= 1
    requires p == u * s + v * r && v - u == 2 * w
    ensures (s + r) % 2 == 1
    ensures w >= 1 ==> 2 * r < p
  {
    SumParity(u, s, v, r);
    if w >= 1 {
      assert v * r == 2 * r + (v - 2) * r;
      MulNonneg(v - 2, r);
      MulNonneg(u, s);
    }
  }

  lemma {:induction false} ULessEqAlgebra(xm: int, u: int, v: int, r: int, s: int, P: int, R: int, w: int)
    requires v - u == 2 * w && u >= 0 && P >= 0 && (w == 0 || R == 2 * r)
    ensures u * (s + r) + w * R == u * s + v * r
    ensures xm * (s + r) - w * (2 * P) == (xm * s - v * P) + (xm * r + u * P)
    ensures u * w * (2 * P) <= u * v * P
  {
    assert w * R == (v - u) * r;
    assert u * w * (2 * P) == u * v * P - u * u * P;
    MulNonneg(u * u, P);
  }

  lemma {:induction false} KeepsULessEq(p: int, xm: int, j: nat, u: int, v: int, r: int, s: int, w: int)
    requires p % 2 == 1 && Invariant(p, xm, j, u, v, r, s, true) && v >= 1
    requires u % 2 == 1 && v % 2 == 1 && u <= v && v - u == 2 * w
    ensures (s + r) % 2 == 1
    ensures Invariant(p, xm, j + 1, u, w, PyInt.Mod(2 * r, p), s + r, true)
  {
    var P, R := BitTools.Pow2(j), PyInt.Mod(2 * r, p);
    ULessEqBounds(p, u, v, r, s, w);
    if w >= 1 {
      SmallPyMod(2 * r, p);
    }
    ULessEqAlgebra(xm, u, v, r, s, P, R, w);
    CoprimeSym(u, v);
    CoprimeOfCombination(v, u, w, 1);
    CoprimeSym(w, u);
    CongSum(p, xm * s - v * P, xm * r + u * P);
    DoubledCong(p, xm, r, u, P);
    assert BitTools.Pow2(j + 1) == 2 * P;
  }

  /** Once v is 0, an iteration only doubles r modulo p, and s is odd. */
  lemma {:induction false} KeepsFinished(p: int, xm: int, j: nat, u: int, r: int, s: int, live: bool)
    requires p % 2 == 1 && Invariant(p, xm, j, u, 0, r, s, live)
    ensures s % 2 == 1
    ensures Invariant(p, xm, j + 1, u, 0, PyInt.Mod(2 * r, p), s, false)
  {
    var P := BitTools.Pow2(j);
    ProductParity(u, s);
    DoubledCong(p, xm, r, u, P);
    assert BitTools.Pow2(j + 1) == 2 * P;
  }

  /** The difference of two odd numbers is twice its half. */
  lemma HalfDifference(x: int, y: int)
    requires x % 2 == 1 && y % 2 == 1
    ensures x - y == 2 * ((x - y) / 2)
  {
  }

  /** Every iteration (with its m qubit fresh) keeps the invariant and returns a and b
      clear, so freeing them is sound. */
  lemma {:induction false} IterationKeeps(p: int, xm: int, j: nat, st: KState)
    requires p % 2 == 1 && st.m == 0 && Inv(p, xm, j, st)
    ensures var it := Iteration(p, st); Inv(p, xm, j + 1, it) && it.a == 0 && it.b == 0
  {
    if st.v == 0 || st.f == 0 {
      IterationFinished(p, st);
      KeepsFinished(p, xm, j, st.u, st.r, st.s, st.f == 1);
    } else {
      IterationLive(p, st);
      if st.u % 2 == 0 {
        KeepsUEven(p, xm, j, st.u, st.v, st.r, st.s);
      } else if st.v % 2 == 0 {
        KeepsVEven(p, xm, j, st.u, st.v, st.r, st.s);
      } else if st.u > st.v {
        HalfDifference(st.u, st.v);
        KeepsUGreater(p, xm, j, st.u, st.v, st.r, st.s, (st.u - st.v) / 2);
      } else {
        HalfDifference(st.v, st.u);
        KeepsULessEq(p, xm, j, st.u, st.v, st.r, st.s, (st.v - st.u) / 2);
      }
    }
  }

  lemma MulStrict(a: int, b: int, c: int)
    requires a < b && c >= 1
    ensures a * c < b * c
  {
    assert b * c - a * c == (b - a) * c;
    BitTools.MulAtLeast(c, b - a);
  }

  /** A non-negative t with t·Q < Q (Q >= 1) is 0. */
  lemma ZeroFactor(t: int, Q: int)
    requires t >= 0 && Q >= 1 && t * Q < Q
    ensures t == 0
  {
    assert (t - 1) * Q == t * Q - Q;
  }

  /** u·v·2^(2n) <= p·xm < 2^(2n) leaves no room for a non-zero v. */
  lemma {:induction false} BoundForcesZero(p: int, xm: int, N: int, Q: int, u: int, v: int)
    requires 1 <= p < N && 0 < xm < p && Q == N * N && u >= 1 && v >= 0 && u * v * Q <= p * xm
    ensures v == 0
  {
    MulStrict(xm, N, p);
    MulStrict(p, N, N);
    assert xm * p == p * xm && N * p == p * N;
    MulNonneg(u, v);
    ZeroFactor(u * v, Q);
    BitTools.MulAtLeast(v, u);
    assert v * u == u * v;
  }

  /** After 2n iterations v has reached 0 (as the bound forces), so u is 1 (u and 0 are
      coprime), s is p, and xm·r = -2^(2n) modulo p with r a non-zero residue. */
  lemma {:induction false} FinalState(p: int, xm: int, n: nat, st: KState)
    requires p % 2 == 1 && 0 < xm < p < BitTools.Pow2(n) && Inv(p, xm, 2 * n, st)
    ensures st.v == 0 && st.u == 1 && st.s == p && 0 < st.r < p
    ensures (xm * st.r + BitTools.Pow2(2 * n)) % p == 0
  {
    Pow2Add(n, n);
    if st.f == 1 {
      BoundForcesZero(p, xm, BitTools.Pow2(n), BitTools.Pow2(2 * n), st.u, st.v);
    }
    assert Divides(st.u, st.u) && Divides(st.u, 0);
    OddNotDividesPow2(p, 2 * n);
  }

  /** The closing complement and addition of p + 1, modulo 2^n, turn the residue r into
      p - r, so xm·r = -2^(2n) becomes (p - r)·xm = 2^(2n) modulo p. */
  lemma {:induction false} NegateResidue(p: int, n: nat, xm: int, r: int, Q: int)
    requires 0 < r < p < BitTools.Pow2(n) && (xm * r + Q) % p == 0
    ensures var N := BitTools.Pow2(n);
      var rf := PyInt.Mod(PyInt.Mod(-r - 1, N) + (p + 1), N);
      rf == p - r && (rf * xm) % p == Q % p
  {
    var N := BitTools.Pow2(n);
    ModMultiplication.PyModIsMod(-r - 1, N);
    BitTools.DivModUnique(-r - 1, N, -1, N - r - 1);
    ModMultiplication.PyModIsMod(N - r - 1 + (p + 1), N);
    BitTools.DivModUnique(N - r - 1 + (p + 1), N, 1, p - r);
    var q := (xm * r + Q) / p;
    assert xm * r + Q == p * q;
    assert Q == p * (Q / p) + Q % p;
    assert (p - r) * xm == p * (Q / p + xm - q) + Q % p;
    BitTools.DivModUnique((p - r) * xm, p, Q / p + xm - q, Q % p);
  }

  /** The starting registers satisfy the invariant before any iteration. */
  lemma {:induction false} InitialInv(p: int, xm: int)
    requires p % 2 == 1 && 0 < xm < p && Coprime(p, xm)
    ensures Inv(p, xm, 0, KState(p, xm, 0, 1, 0, 0, 0, 1))
  {
    BitTools.DivModUnique(p, p, 1, 0);
    assert p * xm * BitTools.Pow2(0) == p * xm;
  }

  /** The registers KaliskiModInverse returns from an invariant state after 2n iterations. */
  lemma {:induction false} FinalResult(p: int, xm: int, n: nat, st: KState)
    requires p % 2 == 1 && 0 < xm < p < BitTools.Pow2(n) && Inv(p, xm, 2 * n, st)
    ensures var N := BitTools.Pow2(n);
      var rf := PyInt.Mod(PyInt.Mod(-st.r - 1, N) + (p + 1), N);
      && st.u == 1 && st.v == 0 && st.s == p && 0 < rf < p
      && (rf * xm) % p == BitTools.Pow2(2 * n) % p
  {
    FinalState(p, xm, n, st);
    NegateResidue(p, n, xm, st.r, BitTools.Pow2(2 * n));
  }

  /** `KaliskiModInverse` (not uncomputing) on classical values: allocate the 2n bits of m
      and the flag f as zeros, set f with an X gate, run 2n iterations, each on its own bit
      of m, then complement r and add p + 1 to it modulo 2^n.  On u = p, v = xm (an input
      coprime to p, in the test the Montgomery form x·2^n of x), r = 0 and s = 1, the
      result is u = 1, v = 0, s = p and the residue r with r·xm = 2^(2n) modulo p, which is
      the Montgomery form of x's inverse when xm is that of x. */
  method KaliskiModInverse(n: nat, p: int, u0: int, v0: int, r0: int, s0: int)
    returns (u: int, v: int, r: int, s: int, m: seq<Bit>, f: Bit)
    requires p != 0
    ensures |m| == ImplCallees(n, p)[KaliskiIteration(n, p)]
    ensures p % 2 == 1 && 0 < v0 < p < BitTools.Pow2(n) && Coprime(p, v0) && u0 == p && r0 == 0 && s0 == 1 ==>
      && u == 1 && v == 0 && s == p && 0 < r < p
      && (r * v0) % p == BitTools.Pow2(2 * n) % p
  {
    ghost var good := p % 2 == 1 && 0 < v0 < p < BitTools.Pow2(n) && Coprime(p, v0) && u0 == p && r0 == 0 && s0 == 1;
    var st := KState(u0, v0, r0, s0, 0, 0, 0, 1);
    if good {
      InitialInv(p, v0);
    }
    m := [];
    var i := 0;
    while i < 2 * n
      invariant 0 <= i <= 2 * n && |m| == i
      invariant good ==> Inv(p, v0, i, st)
    {
      var cleared := st.(m := 0);
      if good {
        IterationKeeps(p, v0, i, cleared);
      }
      st := Iteration(p, cleared);
      m := m + [st.m];
      i := i + 1;
    }
    u, v, s, f := st.u, st.v, st.s, st.f;
    var N := BitTools.Pow2(n);
    r := PyInt.Mod(PyInt.Mod(-st.r - 1, N) + (p + 1), N);
    if good {
      FinalResult(p, v0, n, st);
    }
  }
}
