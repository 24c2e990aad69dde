// Controlled bloqs (qualtran/_infra/controlled.py): the control specification CtrlSpec (its
// validation, bit count, activation function, equality and hash), the names given to control
// registers, the call graph of a controlled bloq and its classical action.  Only concrete
// register types and control values, or a symbolic Shaped array of them, are modelled.

module ControlledBloqs {
  import opened Wrappers
  import PyStr

  /** The number of entries of an array of the given shape. */
  function Prod(shape: seq<nat>): nat {
    if shape == [] then 1 else Prod(shape[..|shape| - 1]) * shape[|shape| - 1]
  }

  /** A numpy integer array: its shape and its entries in row-major order (an int is an array
      of shape ()). */
  datatype Array = Array(shape: seq<nat>, flat: seq<int>)

  type NdArray = a: Array | |a.flat| == Prod(a.shape) witness Array([], [0])

  /** A register type; a symbolic bit width is None. */
  datatype QDType = QDType(name: string, numBits: Option<nat>)

  const QBit := QDType("QBit", Some(1))

  /** Control values of one register: a concrete array, or a Shaped placeholder for symbolic
      values of the given shape. */
  datatype Cv = Concrete(arr: NdArray) | Shaped(dims: seq<nat>)

  function CvShape(cv: Cv): seq<nat> {
    match cv
    case Concrete(a) => a.shape
    case Shaped(d) => d
  }

  datatype CtrlSpec = CtrlSpec(qdtypes: seq<QDType>, cvs: seq<Cv>)

  datatype CtrlError =
    | LengthMismatch   // the assertion of __attrs_post_init__
    | SymbolicSpec     // is_active on a symbolic spec
    | WrongInputCount  // is_active with one value per register missing or extra
    | WrongInputShape  // is_active with a value of the wrong shape

  /** Every CtrlSpec passed its post-init check. */
  predicate Valid(spec: CtrlSpec) {
    |spec.qdtypes| == |spec.cvs|
  }

  /** `__attrs_post_init__`: there must be one register type per control value array. */
  function MakeCtrlSpec(qdtypes: seq<QDType>, cvs: seq<Cv>): (r: Result<CtrlSpec, CtrlError>)
    ensures r.Ok? <==> |qdtypes| == |cvs|
    ensures r.Ok? ==> Valid(r.value) && r.value.qdtypes == qdtypes && r.value.cvs == cvs
    ensures r.Err? ==> r.error == LengthMismatch
  {
    if |qdtypes| == |cvs| then Ok(CtrlSpec(qdtypes, cvs)) else Err(LengthMismatch)
  }

  /** `CtrlSpec()`: one qubit, active on 1. */
  const DefaultSpec := CtrlSpec([QBit], [Concrete(Array([], [1]))])

  /** `is_symbolic()`: a symbolic register type or a Shaped array of control values. */
  predicate IsSymbolic(spec: CtrlSpec) {
    || (exists i | 0 <= i < |spec.qdtypes| :: spec.qdtypes[i].numBits.None?)
    || (exists i | 0 <= i < |spec.cvs| :: spec.cvs[i].Shaped?)
  }

  // ---------------------------------------------------------------------------------
  // num_bits

  /** `num_bits`: the sum over registers of the type's width times the number of entries of
      its shape; None when a register type's width is symbolic. */
  function NumBits(spec: CtrlSpec): Option<nat>
    requires Valid(spec)
    decreases |spec.cvs|
  {
    if spec.cvs == [] then Some(0)
    else
      var k := |spec.cvs| - 1;
      var rest := NumBits(CtrlSpec(spec.qdtypes[..k], spec.cvs[..k]));
      if rest.None? || spec.qdtypes[k].numBits.None? then None
      else Some(rest.value + spec.qdtypes[k].numBits.value * Prod(CvShape(spec.cvs[k])))
  }

  /** The bit count of the registers of two specs side by side is the sum of their counts,
      and it is defined exactly when no register type is symbolic. */
  lemma {:induction false} NumBitsAdditive(a: CtrlSpec, b: CtrlSpec)
    requires Valid(a) && Valid(b)
    ensures var ab := CtrlSpec(a.qdtypes + b.qdtypes, a.cvs + b.cvs);
      && Valid(ab)
      && (NumBits(ab).Some? <==> NumBits(a).Some? && NumBits(b).Some?)
      && (NumBits(ab).Some? ==> NumBits(ab).value == NumBits(a).value + NumBits(b).value)
    decreases |b.cvs|
  {
    var ab := CtrlSpec(a.qdtypes + b.qdtypes, a.cvs + b.cvs);
    if b.cvs != [] {
      var k := |b.cvs| - 1;
      var b' := CtrlSpec(b.qdtypes[..k], b.cvs[..k]);
      NumBitsAdditive(a, b');
      var ab' := CtrlSpec(a.qdtypes + b'.qdtypes, a.cvs + b'.cvs);
      assert ab.qdtypes[..|ab.cvs| - 1] == ab'.qdtypes;
      assert ab.cvs[..|ab.cvs| - 1] == ab'.cvs;
      NumBitsLast(ab, ab', b.qdtypes[k], b.cvs[k]);
      NumBitsLast(b, b', b.qdtypes[k], b.cvs[k]);
    } else {
      assert ab == a;
    }
  }

  /** One step of NumBits: the last register adds its width times the entries of its shape. */
  lemma NumBitsLast(spec: CtrlSpec, prefix: CtrlSpec, q: QDType, cv: Cv)
    requires Valid(spec) && spec.cvs != [] && Valid(prefix)
    requires prefix.qdtypes == spec.qdtypes[..|spec.cvs| - 1] && prefix.cvs == spec.cvs[..|spec.cvs| - 1]
    requires q == spec.qdtypes[|spec.cvs| - 1] && cv == spec.cvs[|spec.cvs| - 1]
    ensures NumBits(spec).Some? <==> NumBits(prefix).Some? && q.numBits.Some?
    ensures NumBits(spec).Some? ==> NumBits(spec).value == NumBits(prefix).value + q.numBits.value * Prod(CvShape(cv))
  {
    assert prefix == CtrlSpec(spec.qdtypes[..|spec.cvs| - 1], spec.cvs[..|spec.cvs| - 1]);
  }

  /** NumBits is defined exactly when every register type has a concrete width. */
  lemma {:induction false} NumBitsDefined(spec: CtrlSpec)
    requires Valid(spec)
    ensures NumBits(spec).Some? <==> forall i | 0 <= i < |spec.qdtypes| :: spec.qdtypes[i].numBits.Some?
    decreases |spec.cvs|
  {
    if spec.cvs != [] {
      var k := |spec.cvs| - 1;
      NumBitsDefined(CtrlSpec(spec.qdtypes[..k], spec.cvs[..k]));
    }
  }

  /** The default spec controls on a single bit. */
  lemma DefaultSpecBits()
    ensures Valid(DefaultSpec) && !IsSymbolic(DefaultSpec) && NumBits(DefaultSpec) == Some(1)
  {
    assert DefaultSpec.cvs[..0] == [];
  }

  // ---------------------------------------------------------------------------------
  // is_active

  /** The values of the first k registers all equal their control values. */
  ghost predicate MatchesUpTo(spec: CtrlSpec, vals: seq<NdArray>, k: nat)
    requires k <= |vals| && k <= |spec.cvs|
  {
    forall i | 0 <= i < k :: spec.cvs[i] == Concrete(vals[i])
  }

  /** Some register's value has the wrong shape while every earlier register matches. */
  ghost predicate ShapeFails(spec: CtrlSpec, vals: seq<NdArray>)
    requires |vals| == |spec.cvs|
  {
    exists k | 0 <= k < |vals| :: MatchesUpTo(spec, vals, k) && vals[k].shape != CvShape(spec.cvs[k])
  }

  /** `is_active(*vals)`: refuse a symbolic spec and a wrong number of values; then, register
      by register, refuse a value of the wrong shape and answer false at the first value
      that differs from its control values; true when every register matches. */
  method IsActive(spec: CtrlSpec, vals: seq<NdArray>) returns (r: Result<bool, CtrlError>)
    requires Valid(spec)
    ensures IsSymbolic(spec) ==> r == Err(SymbolicSpec)
    ensures !IsSymbolic(spec) && |vals| != |spec.cvs| ==> r == Err(WrongInputCount)
    ensures !IsSymbolic(spec) && |vals| == |spec.cvs| ==>
      && (r == Ok(true) <==> MatchesUpTo(spec, vals, |vals|))
      && (r.Ok? || r == Err(WrongInputShape))
      && (r == Err(WrongInputShape) <==> ShapeFails(spec, vals))
      && (r == Ok(false) <==>
            exists k | 0 <= k < |vals| :: && MatchesUpTo(spec, vals, k)
                                         && vals[k].shape == CvShape(spec.cvs[k])
                                         && vals[k].flat != spec.cvs[k].arr.flat)
  {
    if IsSymbolic(spec) {
      return Err(SymbolicSpec);
    }
    if |vals| != |spec.cvs| {
      return Err(WrongInputCount);
    }
    var i := 0;
    while i < |vals|
      invariant 0 <= i <= |vals|
      invariant MatchesUpTo(spec, vals, i)
    {
      var cv := spec.cvs[i].arr;
      if vals[i].shape != cv.shape {
        FirstMismatch(spec, vals, i);
        return Err(WrongInputShape);
      }
      if vals[i].flat != cv.flat {
        FirstMismatch(spec, vals, i);
        return Ok(false);
      }
      i := i + 1;
    }
    r := Ok(true);
  }

  /** The first register whose value differs from its control values is the only k whose
      earlier registers all match and which does not. */
  lemma {:induction false} FirstMismatch(spec: CtrlSpec, vals: seq<NdArray>, i: nat)
    requires Valid(spec) && !IsSymbolic(spec) && |vals| == |spec.cvs| && i < |vals|
    requires MatchesUpTo(spec, vals, i) && spec.cvs[i] != Concrete(vals[i])
    ensures forall k | 0 <= k < |vals| && MatchesUpTo(spec, vals, k) && spec.cvs[k] != Concrete(vals[k]) :: k == i
    ensures !MatchesUpTo(spec, vals, |vals|)
  {
  }

  // ---------------------------------------------------------------------------------
  // Equality and hash

  /** A register's control values as `__cvs_tuple` serializes them. */
  datatype Serial = Flat(values: seq<int>) | Sym(dims: seq<nat>)

  function Serialize(cv: Cv): Serial {
    match cv
    case Concrete(a) => Flat(a.flat)
    case Shaped(d) => Sym(d)
  }

  function Shapes(spec: CtrlSpec): (s: seq<seq<nat>>)
    ensures |s| == |spec.cvs| && forall i | 0 <= i < |s| :: s[i] == CvShape(spec.cvs[i])
  {
    seq(|spec.cvs|, i requires 0 <= i < |spec.cvs| => CvShape(spec.cvs[i]))
  }

  function CvsTuple(spec: CtrlSpec): (s: seq<Serial>)
    ensures |s| == |spec.cvs| && forall i | 0 <= i < |s| :: s[i] == Serialize(spec.cvs[i])
  {
    seq(|spec.cvs|, i requires 0 <= i < |spec.cvs| => Serialize(spec.cvs[i]))
  }

  /** What `__eq__` compares and `__hash__` hashes: the types, the shapes and the flattened
      control values. */
  datatype Key = Key(qdtypes: seq<QDType>, shapes: seq<seq<nat>>, cvs: seq<Serial>)

  function SpecKey(spec: CtrlSpec): Key {
    Key(spec.qdtypes, Shapes(spec), CvsTuple(spec))
  }

  /** `__eq__`. */
  predicate Equal(a: CtrlSpec, b: CtrlSpec) {
    && b.qdtypes == a.qdtypes
    && Shapes(b) == Shapes(a)
    && CvsTuple(b) == CvsTuple(a)
  }

  /** `__hash__`: Python's hash of the key, for any hash function on keys. */
  function Hash(spec: CtrlSpec, h: Key -> int): int {
    h(SpecKey(spec))
  }

  /** Since the shapes are compared, flattening loses nothing: two specs are equal exactly
      when they have the same register types and the same control value arrays; and equal
      specs hash equal. */
  lemma {:induction false} EqualIsIdentity(a: CtrlSpec, b: CtrlSpec, h: Key -> int)
    ensures Equal(a, b) <==> a == b
    ensures Equal(a, b) ==> Hash(a, h) == Hash(b, h)
  {
    if Equal(a, b) {
      assert |a.cvs| == |b.cvs|;
      forall i | 0 <= i < |a.cvs|
        ensures a.cvs[i] == b.cvs[i]
      {
        assert Shapes(a)[i] == Shapes(b)[i] && CvsTuple(a)[i] == CvsTuple(b)[i];
      }
    }
  }

  // ---------------------------------------------------------------------------------
  // Control register names

  /** `f'ctrl{i}'`. */
  function CtrlName(i: nat): string {
    "ctrl" + PyStr.Decimal(i)
  }

  lemma {:induction false} CtrlNameInjective(a: nat, b: nat)
    ensures CtrlName(a) == CtrlName(b) <==> a == b
    ensures CtrlName(a) != "ctrl"
  {
    if CtrlName(a) == CtrlName(b) {
      assert PyStr.Decimal(a) == CtrlName(a)[4..] && PyStr.Decimal(b) == CtrlName(b)[4..];
      PyStr.DecimalInjective(a, b);
    }
  }

  function MaxLen(names: seq<string>): (m: nat)
    ensures forall k | 0 <= k < |names| :: |names[k]| <= m
  {
    if names == [] then 0
    else
      var m := MaxLen(names[..|names| - 1]);
      if |names[|names| - 1]| > m then |names[|names| - 1]| else m
  }

  /** A name longer than every existing one is free. */
  lemma {:induction false} LongNameFree(regNames: seq<string>, i: nat)
    ensures i >= PyStr.Pow10(MaxLen(regNames)) ==> CtrlName(i) !in regNames
  {
    if i >= PyStr.Pow10(MaxLen(regNames)) {
      PyStr.DecimalLength(i, MaxLen(regNames));
    }
  }

  /** The index before the k-th chosen one (the starting index for k = 0). */
  function Before(idx: seq<nat>, k: nat, start: nat): nat
    requires k < |idx|
  {
    if k == 0 then start else idx[k - 1]
  }

  /** The chosen indices increase. */
  ghost predicate Increasing(idx: seq<nat>) {
    forall a, b | 0 <= a < b < |idx| :: idx[a] < idx[b]
  }

  /** Every index skipped between two chosen ones (from start on) names an existing register. */
  ghost predicate GapsTaken(regNames: seq<string>, start: nat, idx: seq<nat>) {
    forall k, j | 0 <= k < |idx| && Before(idx, k, start) < j < idx[k] :: CtrlName(j) in regNames
  }

  /** The indices idx were chosen greedily from start upwards. */
  ghost predicate Greedy(regNames: seq<string>, start: nat, idx: seq<nat>) {
    && Increasing(idx)
    && (idx != [] ==> start < idx[0])
    && GapsTaken(regNames, start, idx)
  }

  /** `_get_nice_ctrl_reg_names(reg_names, n)`: ('ctrl',) when one name is wanted and 'ctrl'
      is free; otherwise, counting up from 1 (from 2 when 'ctrl' is taken), the first n
      names 'ctrl<i>' not among reg_names.  The names are pairwise distinct and new. */
  method NiceCtrlRegNames(regNames: seq<string>, n: nat) returns (names: seq<string>, ghost idx: seq<nat>)
    ensures |names| == n
    ensures forall a, b | 0 <= a < b < n :: names[a] != names[b]
    ensures forall k | 0 <= k < n :: names[k] !in regNames
    ensures names == ["ctrl"] <==> n == 1 && "ctrl" !in regNames
    ensures !(n == 1 && "ctrl" !in regNames) ==>
      && |idx| == n && Greedy(regNames, if "ctrl" in regNames then 1 else 0, idx)
      && forall k | 0 <= k < n :: names[k] == CtrlName(idx[k])
  {
    if n == 1 && "ctrl" !in regNames {
      return ["ctrl"], [];
    }
    var start: nat := if "ctrl" in regNames then 1 else 0;
    names, idx := ChooseNames(regNames, start, n);
    DistinctNames(idx);
    if n == 1 {
      CtrlNameInjective(idx[0], 0);
    }
  }

  /** The outer loop of _get_nice_ctrl_reg_names: n names 'ctrl<i>', each the first free one
      after the previous, counting from start. */
  method ChooseNames(regNames: seq<string>, start: nat, n: nat) returns (names: seq<string>, ghost idx: seq<nat>)
    ensures |names| == n && |idx| == n
    ensures forall k | 0 <= k < n :: names[k] == CtrlName(idx[k]) && names[k] !in regNames
    ensures Greedy(regNames, start, idx)
  {
    var i := start;
    names, idx := [], [];
    while |names| < n
      invariant |names| == |idx| <= n
      invariant forall k | 0 <= k < |idx| :: names[k] == CtrlName(idx[k]) && names[k] !in regNames
      invariant Greedy(regNames, start, idx)
      invariant i == Last(idx, start)
    {
      i := NextFree(regNames, i);
      GreedyStep(regNames, start, idx, i);
      names, idx := names + [CtrlName(i)], idx + [i];
    }
  }

  /** The inner loop of _get_nice_ctrl_reg_names: the first i above last with 'ctrl<i>' free. */
  method NextFree(regNames: seq<string>, last: nat) returns (i: nat)
    ensures last < i && CtrlName(i) !in regNames
    ensures forall j | last < j < i :: CtrlName(j) in regNames
  {
    i := last + 1;
    while CtrlName(i) in regNames
      invariant last < i
      invariant forall j | last < j < i :: CtrlName(j) in regNames
      decreases PyStr.Pow10(MaxLen(regNames)) - i
    {
      LongNameFree(regNames, i);
      i := i + 1;
    }
  }

  /** The last chosen index, or start before any is chosen. */
  function Last(idx: seq<nat>, start: nat): nat {
    if idx == [] then start else idx[|idx| - 1]
  }

  /** Increasing indices give pairwise distinct names. */
  lemma {:induction false} DistinctNames(idx: seq<nat>)
    requires Increasing(idx)
    ensures forall a, b | 0 <= a < b < |idx| :: CtrlName(idx[a]) != CtrlName(idx[b])
  {
    forall a, b | 0 <= a < b < |idx|
      ensures CtrlName(idx[a]) != CtrlName(idx[b])
    {
      CtrlNameInjective(idx[a], idx[b]);
    }
  }

  /** Choosing the next free index keeps the choice greedy. */
  lemma {:induction false} GreedyStep(regNames: seq<string>, start: nat, idx: seq<nat>, i: nat)
    requires Greedy(regNames, start, idx)
    requires Last(idx, start) < i
    requires forall j | Last(idx, start) < j < i :: CtrlName(j) in regNames
    ensures Greedy(regNames, start, idx + [i])
  {
    var idx' := idx + [i];
    forall a, b | 0 <= a < b < |idx'|
      ensures idx'[a] < idx'[b]
    {
      if b < |idx| {
        assert idx'[a] == idx[a] && idx'[b] == idx[b];
      } else if a < |idx| - 1 {
        assert idx[a] < idx[|idx| - 1];
      }
    }
    forall k, j | 0 <= k < |idx'| && Before(idx', k, start) < j < idx'[k]
      ensures CtrlName(j) in regNames
    {
      if k < |idx| {
        assert Before(idx', k, start) == Before(idx, k, start) && idx'[k] == idx[k];
      } else {
        assert Before(idx', k, start) == Last(idx, start);
      }
    }
  }

  // ---------------------------------------------------------------------------------
  // The call graph of a controlled bloq

  /** The total count, over a list of (callee, count) pairs, of the callees that `ctl`
      sends to c. */
  function CountOf<B, C(==)>(sub: seq<(B, nat)>, ctl: B -> C, c: C): nat {
    if sub == [] then 0
    else CountOf(sub[..|sub| - 1], ctl, c) + (if ctl(sub[|sub| - 1].0) == c then sub[|sub| - 1].1 else 0)
  }

  /** `Controlled.build_call_graph`: for each callee b of the subbloq with count n (a set of
      pairs or a dict's items), add n to the count of `b.controlled(ctrl_spec)`, here ctl(b).
      The keys are the controlled callees and each count is the total of the callees sent
      to it. */
  method ControlledCallGraph<B, C(==)>(sub: seq<(B, nat)>, ctl: B -> C) returns (counts: map<C, nat>)
    ensures forall k | 0 <= k < |sub| :: ctl(sub[k].0) in counts
    ensures forall c | c in counts :: (exists k | 0 <= k < |sub| :: ctl(sub[k].0) == c) && counts[c] == CountOf(sub, ctl, c)
  {
    counts := map[];
    var i := 0;
    while i < |sub|
      invariant 0 <= i <= |sub|
      invariant forall k | 0 <= k < i :: ctl(sub[k].0) in counts
      invariant forall c | c in counts :: (exists k | 0 <= k < i :: ctl(sub[k].0) == c) && counts[c] == CountOf(sub[..i], ctl, c)
    {
      var key := ctl(sub[i].0);
      var old_counts := counts;
      counts := counts[key := (if key in counts then counts[key] else 0) + sub[i].1];
      forall c | c in counts
        ensures (exists k | 0 <= k < i + 1 :: ctl(sub[k].0) == c) && counts[c] == CountOf(sub[..i + 1], ctl, c)
      {
        CountStep(sub, ctl, i, c);
        if c != key {
          assert c in old_counts;
        } else if key !in old_counts {
          forall k | 0 <= k < i
            ensures ctl(sub[k].0) != key
          {
            assert ctl(sub[k].0) in old_counts;
          }
        }
      }
      i := i + 1;
    }
    assert sub[..i] == sub;
  }

  /** One more pair adds its count to its own controlled callee and nothing elsewhere; a
      callee no pair is sent to has count 0. */
  lemma {:induction false} CountStep<B, C>(sub: seq<(B, nat)>, ctl: B -> C, i: nat, c: C)
    requires i < |sub|
    ensures CountOf(sub[..i + 1], ctl, c) == CountOf(sub[..i], ctl, c) + (if ctl(sub[i].0) == c then sub[i].1 else 0)
    ensures (forall k | 0 <= k < i :: ctl(sub[k].0) != c) ==> CountOf(sub[..i], ctl, c) == 0
  {
    assert sub[..i + 1][..i] == sub[..i];
    if forall k | 0 <= k < i :: ctl(sub[k].0) != c {
      CountAbsent(sub[..i], ctl, c);
    }
  }

  lemma {:induction false} CountAbsent<B, C>(sub: seq<(B, nat)>, ctl: B -> C, c: C)
    requires forall k | 0 <= k < |sub| :: ctl(sub[k].0) != c
    ensures CountOf(sub, ctl, c) == 0
  {
    if sub != [] {
      CountAbsent(sub[..|sub| - 1], ctl, c);
    }
  }

  /** When controlling keeps distinct callees distinct, each controlled callee has the count
      its callee had. */
  lemma {:induction false} CountInjective<B, C>(sub: seq<(B, nat)>, ctl: B -> C, k: nat)
    requires k < |sub|
    requires forall a, b | 0 <= a < b < |sub| :: ctl(sub[a].0) != ctl(sub[b].0)
    ensures CountOf(sub, ctl, ctl(sub[k].0)) == sub[k].1
  {
    var n := |sub| - 1;
    if k < n {
      CountInjective(sub[..n], ctl, k);
    } else {
      CountAbsent(sub[..n], ctl, ctl(sub[k].0));
    }
  }

  // ---------------------------------------------------------------------------------
  // Classical action

  datatype ClassicalError = NonThruRegisters | MissingValue | Activation(e: CtrlError)

  /** `[vals[reg_name] for reg_name in ctrl_reg_names]`. */
  function CtrlVals(ctrlNames: seq<string>, vals: map<string, NdArray>): (cv: seq<NdArray>)
    requires forall k | 0 <= k < |ctrlNames| :: ctrlNames[k] in vals
    ensures |cv| == |ctrlNames| && forall k | 0 <= k < |cv| :: cv[k] == vals[ctrlNames[k]]
  {
    seq(|ctrlNames|, k requires 0 <= k < |ctrlNames| => vals[ctrlNames[k]])
  }

  /** `{reg.name: vals[reg.name] for reg in subbloq.signature}`. */
  function OtherVals(subRegs: seq<string>, vals: map<string, NdArray>): (o: map<string, NdArray>)
    ensures forall n :: n in o <==> n in subRegs && n in vals
    ensures forall n | n in o :: o[n] == vals[n]
  {
    map n | n in subRegs && n in vals :: vals[n]
  }

  /** `{**rets, **{name: val for name, val in zip(ctrl_reg_names, ctrl_vals)}}`: the control
      values written over the subbloq's results. */
  function WithCtrlVals(rets: map<string, NdArray>, ctrlNames: seq<string>, cv: seq<NdArray>): map<string, NdArray>
    requires |cv| == |ctrlNames|
    decreases |ctrlNames|
  {
    if ctrlNames == [] then rets
    else
      var k := |ctrlNames| - 1;
      WithCtrlVals(rets, ctrlNames[..k], cv[..k])[ctrlNames[k] := cv[k]]
  }

  /** Every name of the list is a key of the map. */
  predicate AllIn(names: seq<string>, vals: map<string, NdArray>) {
    forall k | 0 <= k < |names| :: names[k] in vals
  }

  /** `_ControlledBase.on_classical_vals`: refuse non-THRU registers; collect the control
      values by the control register names and the subbloq's values by its register names
      (a missing one is Python's KeyError); when the spec is active, the subbloq's classical
      action `sub` on its values with the control values written back over it, otherwise
      the input unchanged. */
  method OnClassicalVals(spec: CtrlSpec, ctrlNames: seq<string>, subRegs: seq<string>, thruOnly: bool,
                         sub: map<string, NdArray> -> map<string, NdArray>, vals: map<string, NdArray>)
    returns (r: Result<map<string, NdArray>, ClassicalError>)
    requires Valid(spec)
    ensures !thruOnly ==> r == Err(NonThruRegisters)
    ensures thruOnly ==> (r == Err(MissingValue) <==> !(AllIn(ctrlNames, vals) && AllIn(subRegs, vals)))
    ensures r.Ok? ==>
      && AllIn(ctrlNames, vals) && AllIn(subRegs, vals)
      && !IsSymbolic(spec) && |ctrlNames| == |spec.cvs|
      && (MatchesUpTo(spec, CtrlVals(ctrlNames, vals), |ctrlNames|) ==>
            r.value == WithCtrlVals(sub(OtherVals(subRegs, vals)), ctrlNames, CtrlVals(ctrlNames, vals)))
      && (!MatchesUpTo(spec, CtrlVals(ctrlNames, vals), |ctrlNames|) ==> r.value == vals)
    ensures thruOnly && AllIn(ctrlNames, vals) && AllIn(subRegs, vals) && IsSymbolic(spec) ==>
      r == Err(Activation(SymbolicSpec))
    ensures thruOnly && AllIn(ctrlNames, vals) && AllIn(subRegs, vals) && !IsSymbolic(spec)
            && |ctrlNames| != |spec.cvs| ==>
      r == Err(Activation(WrongInputCount))
    ensures thruOnly && AllIn(ctrlNames, vals) && AllIn(subRegs, vals) && !IsSymbolic(spec)
            && |ctrlNames| == |spec.cvs| ==>
      && (r.Ok? <==> !ShapeFails(spec, CtrlVals(ctrlNames, vals)))
      && (r.Err? ==> r == Err(Activation(WrongInputShape)))
  {
    if !thruOnly {
      return Err(NonThruRegisters);
    }
    if !(AllIn(ctrlNames, vals) && AllIn(subRegs, vals)) {
      return Err(MissingValue);
    }
    var ctrlVals := CtrlVals(ctrlNames, vals);
    var active := IsActive(spec, ctrlVals);
    if active.Err? {
      return Err(Activation(active.error));
    }
    if active.value {
      r := Ok(WithCtrlVals(sub(OtherVals(subRegs, vals)), ctrlNames, ctrlVals));
    } else {
      r := Ok(vals);
    }
  }

  /** With distinct control register names, every control register comes back from the
      active classical action with the value it went in with, whatever the subbloq
      returns. */
  lemma {:induction false} ControlValuesKept(rets: map<string, NdArray>, ctrlNames: seq<string>, cv: seq<NdArray>, k: nat)
    requires |cv| == |ctrlNames| && k < |ctrlNames|
    requires forall a, b | 0 <= a < b < |ctrlNames| :: ctrlNames[a] != ctrlNames[b]
    ensures var m := WithCtrlVals(rets, ctrlNames, cv);
      ctrlNames[k] in m && m[ctrlNames[k]] == cv[k]
    decreases |ctrlNames|
  {
    var n := |ctrlNames| - 1;
    if k < n {
      ControlValuesKept(rets, ctrlNames[..n], cv[..n], k);
    }
  }

  /** A register that is not a control register keeps the subbloq's result. */
  lemma {:induction false} SubbloqValuesKept(rets: map<string, NdArray>, ctrlNames: seq<string>, cv: seq<NdArray>, n: string)
    requires |cv| == |ctrlNames| && n !in ctrlNames && n in rets
    ensures var m := WithCtrlVals(rets, ctrlNames, cv);
      n in m && m[n] == rets[n]
    decreases |ctrlNames|
  {
    if ctrlNames != [] {
      var k := |ctrlNames| - 1;
      assert n != ctrlNames[k];
      SubbloqValuesKept(rets, ctrlNames[..k], cv[..k], n);
    }
  }
}
