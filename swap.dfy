// Swap bloqs (qualtran/bloqs/basic_gates/swap.py): the classical action, call graph and
// adjoint of TwoBitSwap, TwoBitCSwap (the Fredkin gate), Swap(n) and CSwap(n).

module SwapBloqs {
  import opened Wrappers
  import BitTools

  /** The bloqs of this file and the gates TwoBitCSwap calls; a bitsize is concrete. */
  datatype Bloq =
    | TGate | CNOT | Hadamard
    | TwoBitSwap | TwoBitCSwap
    | Swap(bitsize: nat) | CSwap(bitsize: nat)

  /** The ValueError raised for a control value other than 0 and 1. */
  datatype SwapError = BadControl

  /** Register values: `ctrl` (unused by the uncontrolled swaps), `x` and `y`. */
  datatype Vals = Vals(ctrl: int, x: int, y: int)

  predicate Controlled(b: Bloq) {
    b.TwoBitCSwap? || b.CSwap?
  }

  /** `on_classical_vals` of a swap bloq: the uncontrolled swaps exchange x and y, the
      controlled ones do so when ctrl is 1, do nothing when it is 0 and refuse any other
      control value. */
  function OnClassicalVals(b: Bloq, v: Vals): (r: Result<Vals, SwapError>)
    requires b.TwoBitSwap? || b.TwoBitCSwap? || b.Swap? || b.CSwap?
    ensures !Controlled(b) ==> r.Ok? && r.value.x == v.y && r.value.y == v.x
    ensures Controlled(b) ==> (r.Ok? <==> v.ctrl == 0 || v.ctrl == 1)
    ensures Controlled(b) && v.ctrl == 0 ==> r == Ok(v)
    ensures Controlled(b) && v.ctrl == 1 ==> r == Ok(Vals(1, v.y, v.x))
  {
    if !Controlled(b) then Ok(Vals(v.ctrl, v.y, v.x))
    else if v.ctrl == 0 then Ok(Vals(0, v.x, v.y))
    else if v.ctrl == 1 then Ok(Vals(1, v.y, v.x))
    else Err(BadControl)
  }

  /** `adjoint`: every swap bloq is its own adjoint. */
  function Adjoint(b: Bloq): Bloq
    requires b.TwoBitSwap? || b.TwoBitCSwap? || b.Swap? || b.CSwap?
  {
    b
  }

  /** Since each swap bloq is its own adjoint, undoing one with its adjoint restores every
      register value the bloq accepts. */
  lemma {:induction false} AdjointUndoes(b: Bloq, v: Vals)
    requires b.TwoBitSwap? || b.TwoBitCSwap? || b.Swap? || b.CSwap?
    requires OnClassicalVals(b, v).Ok?
    ensures Adjoint(b) == b
    ensures OnClassicalVals(Adjoint(b), OnClassicalVals(b, v).value) == Ok(v)
  {
  }

  /** `build_call_graph`: TwoBitCSwap calls seven T, eight CNOT and two Hadamard gates,
      Swap(n) calls n TwoBitSwap and CSwap(n) calls n TwoBitCSwap; the others are leaves. */
  function Callees(b: Bloq): map<Bloq, nat> {
    match b
    case TwoBitCSwap => map[TGate := 7, CNOT := 8, Hadamard := 2]
    case Swap(n) => map[TwoBitSwap := n]
    case CSwap(n) => map[TwoBitCSwap := n]
    case _ => map[]
  }

  /** `TComplexity`: counts of T gates and of Clifford gates. */
  datatype TComplexity = TComplexity(t: nat, clifford: nat)

  /** The `_t_complexity_` the file declares (TwoBitSwap: one Clifford; TwoBitCSwap: seven T
      and ten Cliffords), and as for T, CNOT and Hadamard, one gate of their kind. */
  function DeclaredTComplexity(b: Bloq): Option<TComplexity> {
    match b
    case TGate => Some(TComplexity(1, 0))
    case CNOT => Some(TComplexity(0, 1))
    case Hadamard => Some(TComplexity(0, 1))
    case TwoBitSwap => Some(TComplexity(0, 1))
    case TwoBitCSwap => Some(TComplexity(7, 10))
    case _ => None
  }

  /** The T complexity summed over the call graph, callee by callee. */
  function CalleesTComplexity(b: Bloq): (r: TComplexity)
    requires b.TwoBitCSwap? || b.Swap? || b.CSwap?
  {
    match b
    case TwoBitCSwap =>
      TComplexity(7 * DeclaredTComplexity(TGate).value.t + 8 * DeclaredTComplexity(CNOT).value.t
                    + 2 * DeclaredTComplexity(Hadamard).value.t,
                  7 * DeclaredTComplexity(TGate).value.clifford + 8 * DeclaredTComplexity(CNOT).value.clifford
                    + 2 * DeclaredTComplexity(Hadamard).value.clifford)
    case Swap(n) => TComplexity(n * DeclaredTComplexity(TwoBitSwap).value.t, n * DeclaredTComplexity(TwoBitSwap).value.clifford)
    case CSwap(n) => TComplexity(n * DeclaredTComplexity(TwoBitCSwap).value.t, n * DeclaredTComplexity(TwoBitCSwap).value.clifford)
  }

  /** The T complexity TwoBitCSwap declares is the one its call graph adds up to, and a
      controlled swap of n bits takes 7n T gates, an uncontrolled one none. */
  lemma {:induction false} CallGraphCosts(n: nat)
    ensures CalleesTComplexity(TwoBitCSwap) == DeclaredTComplexity(TwoBitCSwap).value
    ensures forall g | g in Callees(TwoBitCSwap) :: DeclaredTComplexity(g).Some?
    ensures CalleesTComplexity(CSwap(n)) == TComplexity(7 * n, 10 * n)
    ensures CalleesTComplexity(Swap(n)) == TComplexity(0, n)
    ensures Callees(Swap(n))[TwoBitSwap] == n && Callees(CSwap(n))[TwoBitCSwap] == n
  {
  }

  /** A CSwap of two n-bit registers done bit by bit, as its call graph has it: one
      TwoBitCSwap per bit position, all on the same control. */
  function BitwiseCSwap(ctrl: int, xs: seq<int>, ys: seq<int>): Result<(int, seq<int>, seq<int>), SwapError>
    requires |xs| == |ys|
    decreases |xs|
  {
    if xs == [] then Ok((ctrl, [], []))
    else
      var rest := BitwiseCSwap(ctrl, xs[..|xs| - 1], ys[..|ys| - 1]);
      var last := OnClassicalVals(TwoBitCSwap, Vals(ctrl, xs[|xs| - 1], ys[|ys| - 1]));
      if rest.Err? then Err(rest.error)
      else if last.Err? then Err(last.error)
      else Ok((last.value.ctrl, rest.value.1 + [last.value.x], rest.value.2 + [last.value.y]))
  }

  /** The bit-by-bit swap fails exactly on a bad control value in non-empty registers, and
      otherwise leaves or exchanges the two registers as a whole. */
  lemma {:induction false} BitwiseCSwapSpec(ctrl: int, xs: seq<int>, ys: seq<int>)
    requires |xs| == |ys|
    ensures var r := BitwiseCSwap(ctrl, xs, ys);
      && (r.Ok? <==> xs == [] || ctrl == 0 || ctrl == 1)
      && (r.Ok? && xs != [] ==> r.value == (ctrl, if ctrl == 1 then ys else xs, if ctrl == 1 then xs else ys))
    decreases |xs|
  {
    if xs != [] {
      var px, py := xs[..|xs| - 1], ys[..|ys| - 1];
      BitwiseCSwapSpec(ctrl, px, py);
      assert px + [xs[|xs| - 1]] == xs && py + [ys[|ys| - 1]] == ys;
    }
  }

  /** Done bit by bit on n-bit registers, CSwap has the classical action of the register-level
      CSwap(n) on the registers' values. */
  lemma {:induction false} BitwiseCSwapAgrees(ctrl: int, xs: seq<int>, ys: seq<int>)
    requires |xs| == |ys| >= 1
    ensures var r := BitwiseCSwap(ctrl, xs, ys);
      var s := OnClassicalVals(CSwap(|xs|), Vals(ctrl, BitTools.Value(xs), BitTools.Value(ys)));
      && (r.Ok? <==> s.Ok?)
      && (r.Ok? ==> s.value == Vals(r.value.0, BitTools.Value(r.value.1), BitTools.Value(r.value.2)))
  {
    BitwiseCSwapSpec(ctrl, xs, ys);
  }
}
