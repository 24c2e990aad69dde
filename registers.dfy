// Named qubit registers of a gate (cirq_qubitization/gate_with_registers.py): the
// `Registers` collection, its total width, and splitting and merging a flat list of
// qubits or a bit-packed integer by register.

module GateRegisters {
  import opened Wrappers
  import opened BitTools

  datatype Register = Register(name: string, bitsize: nat)

  datatype Registers = Registers(regs: seq<Register>)

  datatype RegistersError = DuplicateNames

  predicate DistinctNames(regs: seq<Register>) {
    forall i, j | 0 <= i < j < |regs| :: regs[i].name != regs[j].name
  }

  /** A `Registers` value as __init__ lets it exist: no two registers share a name. */
  type ValidRegisters = r: Registers | DistinctNames(r.regs) witness Registers([])

  /** The names of the first k registers. */
  function Names(regs: seq<Register>, k: nat): set<string>
    requires k <= |regs|
  {
    set j | 0 <= j < k :: regs[j].name
  }

  /** `{r.name: r for r in registers}`: a later register replaces an earlier one. */
  function NameDict(regs: seq<Register>): map<string, Register> {
    if regs == [] then map[]
    else NameDict(regs[..|regs| - 1])[regs[|regs| - 1].name := regs[|regs| - 1]]
  }

  /** The names of a list are those of all but its last register, and the last one's. */
  lemma {:induction false} NamesSnoc(regs: seq<Register>)
    requires regs != []
    ensures Names(regs, |regs|) == Names(regs[..|regs| - 1], |regs| - 1) + {regs[|regs| - 1].name}
  {
    var p := regs[..|regs| - 1];
    assert forall j | 0 <= j < |regs| - 1 :: regs[j] == p[j];
  }

  /** Distinct names: distinct in all but the last register, and the last one new. */
  lemma {:induction false} DistinctSnoc(regs: seq<Register>)
    requires regs != []
    ensures DistinctNames(regs) <==>
      DistinctNames(regs[..|regs| - 1]) && regs[|regs| - 1].name !in Names(regs[..|regs| - 1], |regs| - 1)
  {
    var n := |regs|;
    var p := regs[..n - 1];
    assert forall j | 0 <= j < n - 1 :: regs[j] == p[j];
    if DistinctNames(p) && regs[n - 1].name !in Names(p, n - 1) {
      forall i, j | 0 <= i < j < n ensures regs[i].name != regs[j].name {
        if j == n - 1 {
          assert regs[i].name in Names(p, n - 1);
        }
      }
    }
  }

  /** The dictionary has one key per name. */
  lemma {:induction false} NameDictKeys(regs: seq<Register>)
    ensures NameDict(regs).Keys == Names(regs, |regs|)
  {
    if regs != [] {
      NameDictKeys(regs[..|regs| - 1]);
      NamesSnoc(regs);
    }
  }

  /** There are at most as many names as registers, exactly as many when they are distinct. */
  lemma {:induction false} NamesCount(regs: seq<Register>)
    ensures |Names(regs, |regs|)| <= |regs|
    ensures |Names(regs, |regs|)| == |regs| <==> DistinctNames(regs)
  {
    if regs != [] {
      var n := |regs|;
      var p := regs[..n - 1];
      NamesCount(p);
      NamesSnoc(regs);
      DistinctSnoc(regs);
      var x := regs[n - 1].name;
      if x !in Names(p, n - 1) {
        assert |Names(p, n - 1) + {x}| == |Names(p, n - 1)| + 1;
      } else {
        assert Names(p, n - 1) + {x} == Names(p, n - 1);
      }
    }
  }

  /** `Registers(registers)`: raises ValueError when two registers share a name. */
  function MakeRegisters(regs: seq<Register>): (r: Result<ValidRegisters, RegistersError>)
    ensures r.Ok? <==> DistinctNames(regs)
    ensures r.Ok? ==> r.value.regs == regs
  {
    NameDictKeys(regs);
    NamesCount(regs);
    if |NameDict(regs).Keys| != |regs| then Err(DuplicateNames)
    else
      var v: ValidRegisters := Registers(regs);
      Ok(v)
  }

  /** Where register k starts: the widths of the registers before it. */
  function Offset(regs: seq<Register>, k: nat): nat
    requires k <= |regs|
  {
    if k == 0 then 0 else Offset(regs, k - 1) + regs[k - 1].bitsize
  }

  /** `bitsize`: the sum of the register widths. */
  function Bitsize(r: Registers): nat {
    Offset(r.regs, |r.regs|)
  }

  /** Offsets never decrease, and each register's field lies within the total width. */
  lemma {:induction false} OffsetMonotone(regs: seq<Register>, j: nat, k: nat)
    requires j <= k <= |regs|
    ensures Offset(regs, j) <= Offset(regs, k)
    decreases k - j
  {
    if j < k {
      OffsetMonotone(regs, j, k - 1);
    }
  }

  lemma {:induction false} FieldInRange(regs: seq<Register>, k: nat)
    requires k < |regs|
    ensures Offset(regs, k) + regs[k].bitsize <= Offset(regs, |regs|)
  {
    OffsetMonotone(regs, k + 1, |regs|);
  }

  /** Python's `s[i:j]` for 0 <= i <= j: both ends clamp to the length. */
  function Slice<T>(s: seq<T>, i: nat, j: nat): seq<T>
    requires i <= j
  {
    var a := if i < |s| then i else |s|;
    var b := if j < |s| then j else |s|;
    s[a..b]
  }

  /** Within the sequence, the slice is the plain subsequence; in any case it is no longer
      than j - i. */
  lemma {:induction false} SliceInRange<T>(s: seq<T>, i: nat, j: nat)
    requires i <= j
    ensures j <= |s| ==> Slice(s, i, j) == s[i..j]
    ensures |Slice(s, i, j)| <= j - i
  {
  }

  // ---------------------------------------------------------------------------------
  // split_qubits

  /** Register j maps to its own slice of the qubits. */
  ghost predicate HasSlice<Q>(regs: seq<Register>, qubits: seq<Q>, m: map<string, seq<Q>>, j: nat)
    requires j < |regs|
  {
    regs[j].name in m && m[regs[j].name] == Slice(qubits, Offset(regs, j), Offset(regs, j) + regs[j].bitsize)
  }

  /** Registers 0..k-1, and no other names, each map to their own slice of the qubits. */
  ghost predicate SplitUpTo<Q>(regs: seq<Register>, qubits: seq<Q>, m: map<string, seq<Q>>, k: nat)
    requires k <= |regs|
  {
    m.Keys == Names(regs, k) && forall j | 0 <= j < k :: HasSlice(regs, qubits, m, j)
  }

  lemma {:induction false} SplitStep<Q>(regs: seq<Register>, qubits: seq<Q>, m: map<string, seq<Q>>, k: nat)
    requires DistinctNames(regs) && k < |regs| && SplitUpTo(regs, qubits, m, k)
    ensures SplitUpTo(regs, qubits,
      m[regs[k].name := Slice(qubits, Offset(regs, k), Offset(regs, k) + regs[k].bitsize)], k + 1)
  {
    var m' := m[regs[k].name := Slice(qubits, Offset(regs, k), Offset(regs, k) + regs[k].bitsize)];
    assert Names(regs, k + 1) == Names(regs, k) + {regs[k].name};
    forall j | 0 <= j < k + 1 ensures HasSlice(regs, qubits, m', j) {
      if j < k {
        assert HasSlice(regs, qubits, m, j);
        assert regs[j].name != regs[k].name;
      }
    }
  }

  /** `split_qubits`: each register gets the qubits of its own consecutive slice, starting
      where the previous register's slice ends (short lists give shorter slices). */
  method SplitQubits<Q>(r: ValidRegisters, qubits: seq<Q>) returns (m: map<string, seq<Q>>)
    ensures SplitUpTo(r.regs, qubits, m, |r.regs|)
  {
    m := map[];
    var base := 0;
    var k := 0;
    while k < |r.regs|
      invariant k <= |r.regs| && base == Offset(r.regs, k)
      invariant SplitUpTo(r.regs, qubits, m, k)
    {
      var reg := r.regs[k];
      SplitStep(r.regs, qubits, m, k);
      m := m[reg.name := Slice(qubits, base, base + reg.bitsize)];
      base := base + reg.bitsize;
      k := k + 1;
    }
  }

  // ---------------------------------------------------------------------------------
  // merge_qubits

  /** A keyword argument of merge_qubits: a single qubit or a sequence of them. */
  datatype QubitsArg<Q> = Single(q: Q) | Many(qs: seq<Q>)

  function AsSeq<Q>(a: QubitsArg<Q>): seq<Q> {
    match a
    case Single(q) => [q]
    case Many(qs) => qs
  }

  datatype MergeError = MissingRegister(name: string) | WrongLength(name: string)

  /** Register k is present among the arguments with as many qubits as it is wide. */
  predicate Supplied<Q>(reg: Register, args: map<string, QubitsArg<Q>>) {
    reg.name in args && |AsSeq(args[reg.name])| == reg.bitsize
  }

  /** The qubits of the first k registers, in register order; the assertion on the first
      register that is missing or has the wrong length fails. */
  function Merge<Q>(regs: seq<Register>, args: map<string, QubitsArg<Q>>, k: nat): Result<seq<Q>, MergeError>
    requires k <= |regs|
  {
    if k == 0 then Ok([])
    else
      var p := Merge(regs, args, k - 1);
      var reg := regs[k - 1];
      if p.Err? then p
      else if reg.name !in args then Err(MissingRegister(reg.name))
      else if |AsSeq(args[reg.name])| != reg.bitsize then Err(WrongLength(reg.name))
      else Ok(p.value + AsSeq(args[reg.name]))
  }

  function ErrorName(e: MergeError): string {
    match e
    case MissingRegister(n) => n
    case WrongLength(n) => n
  }

  /** Merging succeeds exactly when every register is supplied with the right length; the
      result is then bitsize long with each register's qubits at its offset, and otherwise
      the error names the first register that is not supplied. */
  lemma {:induction false} MergeSpec<Q>(regs: seq<Register>, args: map<string, QubitsArg<Q>>, n: nat)
    requires n <= |regs|
    ensures Merge(regs, args, n).Ok? <==> forall k | 0 <= k < n :: Supplied(regs[k], args)
    ensures Merge(regs, args, n).Ok? ==>
      var v := Merge(regs, args, n).value;
      |v| == Offset(regs, n) && forall k | 0 <= k < n :: Placed(regs, args, v, k)
    ensures Merge(regs, args, n).Err? ==>
      exists k | 0 <= k < n ::
        && !Supplied(regs[k], args)
        && ErrorName(Merge(regs, args, n).error) == regs[k].name
        && forall j | 0 <= j < k :: Supplied(regs[j], args)
  {
    if n > 0 {
      MergeSpec(regs, args, n - 1);
      if Merge(regs, args, n).Ok? {
        MergeSnoc(regs, args, n);
        MergePlacedStep(regs, args, n);
      }
    }
  }

  lemma {:induction false} MergePlacedStep<Q>(regs: seq<Register>, args: map<string, QubitsArg<Q>>, n: nat)
    requires 0 < n <= |regs| && Merge(regs, args, n).Ok? && Merge(regs, args, n - 1).Ok?
    requires Supplied(regs[n - 1], args)
    requires Merge(regs, args, n).value == Merge(regs, args, n - 1).value + AsSeq(args[regs[n - 1].name])
    requires var u := Merge(regs, args, n - 1).value;
      |u| == Offset(regs, n - 1) && forall k | 0 <= k < n - 1 :: Placed(regs, args, u, k)
    ensures var v := Merge(regs, args, n).value;
      |v| == Offset(regs, n) && forall k | 0 <= k < n :: Placed(regs, args, v, k)
  {
    var u := Merge(regs, args, n - 1).value;
    var w := AsSeq(args[regs[n - 1].name]);
    var v := Merge(regs, args, n).value;
    ConcatSlices(u, w);
    forall k | 0 <= k < n ensures Placed(regs, args, v, k) {
      if k < n - 1 {
        assert Placed(regs, args, u, k);
      }
    }
  }

  /** Register k is supplied, and its qubits lie at its offset in v. */
  ghost predicate Placed<Q>(regs: seq<Register>, args: map<string, QubitsArg<Q>>, v: seq<Q>, k: nat)
    requires k < |regs|
  {
    && Supplied(regs[k], args)
    && Offset(regs, k) + regs[k].bitsize <= |v|
    && v[Offset(regs, k)..Offset(regs, k) + regs[k].bitsize] == AsSeq(args[regs[k].name])
  }

  /** The step of MergeSpec for a successful merge: the earlier registers' qubits keep their
      places, and the last register's follow them. */
  lemma {:induction false} MergeSnoc<Q>(regs: seq<Register>, args: map<string, QubitsArg<Q>>, n: nat)
    requires 0 < n <= |regs| && Merge(regs, args, n).Ok?
    ensures Merge(regs, args, n - 1).Ok? && Supplied(regs[n - 1], args)
    ensures Merge(regs, args, n).value == Merge(regs, args, n - 1).value + AsSeq(args[regs[n - 1].name])
  {
  }

  /** Slices of u + w below |u| are slices of u, and w follows u. */
  lemma {:induction false} ConcatSlices<T>(u: seq<T>, w: seq<T>)
    ensures forall a, b | 0 <= a <= b <= |u| :: (u + w)[a..b] == u[a..b]
    ensures (u + w)[|u|..|u| + |w|] == w
  {
  }

  /** `merge_qubits`: concatenates the registers' qubits, a single qubit standing for a
      list of one, and fails on the first register not supplied with its width. */
  method MergeQubits<Q>(r: ValidRegisters, args: map<string, QubitsArg<Q>>) returns (res: Result<seq<Q>, MergeError>)
    ensures res == Merge(r.regs, args, |r.regs|)
  {
    var ret: seq<Q> := [];
    var k := 0;
    while k < |r.regs|
      invariant k <= |r.regs| && Merge(r.regs, args, k) == Ok(ret)
    {
      var reg := r.regs[k];
      if reg.name !in args {
        MergeStops(r.regs, args, k + 1, |r.regs|);
        return Err(MissingRegister(reg.name));
      }
      var qubits := AsSeq(args[reg.name]);
      if |qubits| != reg.bitsize {
        MergeStops(r.regs, args, k + 1, |r.regs|);
        return Err(WrongLength(reg.name));
      }
      ret := ret + qubits;
      k := k + 1;
    }
    res := Ok(ret);
  }

  /** Once the first k registers fail, merging more of them fails with the same error. */
  lemma {:induction false} MergeStops<Q>(regs: seq<Register>, args: map<string, QubitsArg<Q>>, k: nat, n: nat)
    requires k <= n <= |regs| && Merge(regs, args, k).Err?
    ensures Merge(regs, args, n) == Merge(regs, args, k)
    decreases n - k
  {
    if k < n {
      MergeStops(regs, args, k, n - 1);
    }
  }

  /** Each register name bound to its slice as a list argument. */
  function AsArgs<Q>(m: map<string, seq<Q>>): map<string, QubitsArg<Q>> {
    map name | name in m :: Many(m[name])
  }

  /** merge_qubits(**split_qubits(q)) == q for a list of exactly bitsize qubits. */
  lemma {:induction false} MergeOfSplit<Q>(r: ValidRegisters, qubits: seq<Q>, m: map<string, seq<Q>>)
    requires |qubits| == Bitsize(r) && SplitUpTo(r.regs, qubits, m, |r.regs|)
    ensures Merge(r.regs, AsArgs(m), |r.regs|) == Ok(qubits)
  {
    MergePrefix(r.regs, qubits, m, |r.regs|);
    assert qubits[..|qubits|] == qubits;
  }

  lemma {:induction false} MergePrefix<Q>(regs: seq<Register>, qubits: seq<Q>, m: map<string, seq<Q>>, k: nat)
    requires k <= |regs| && |qubits| == Offset(regs, |regs|) && SplitUpTo(regs, qubits, m, |regs|)
    ensures Offset(regs, k) <= |qubits| && Merge(regs, AsArgs(m), k) == Ok(qubits[..Offset(regs, k)])
  {
    OffsetMonotone(regs, k, |regs|);
    if k > 0 {
      MergePrefix(regs, qubits, m, k - 1);
      var reg := regs[k - 1];
      assert reg.name in Names(regs, |regs|);
      var lo, hi := Offset(regs, k - 1), Offset(regs, k);
      assert HasSlice(regs, qubits, m, k - 1);
      SliceInRange(qubits, lo, hi);
      assert AsSeq(AsArgs(m)[reg.name]) == qubits[lo..hi];
      assert qubits[..lo] + qubits[lo..hi] == qubits[..hi];
    }
  }

  /** split_qubits(merge_qubits(**args)) gives every register back the qubits it was
      supplied with. */
  lemma {:induction false} SplitOfMerge<Q>(r: ValidRegisters, args: map<string, QubitsArg<Q>>, m: map<string, seq<Q>>)
    requires Merge(r.regs, args, |r.regs|).Ok? && SplitUpTo(r.regs, Merge(r.regs, args, |r.regs|).value, m, |r.regs|)
    ensures forall k | 0 <= k < |r.regs| :: r.regs[k].name in args && m[r.regs[k].name] == AsSeq(args[r.regs[k].name])
  {
    var v := Merge(r.regs, args, |r.regs|).value;
    MergeSpec(r.regs, args, |r.regs|);
    forall k | 0 <= k < |r.regs| ensures r.regs[k].name in args && m[r.regs[k].name] == AsSeq(args[r.regs[k].name]) {
      assert Placed(r.regs, args, v, k);
      assert HasSlice(r.regs, v, m, k);
      SliceInRange(v, Offset(r.regs, k), Offset(r.regs, k) + r.regs[k].bitsize);
    }
  }

  // ---------------------------------------------------------------------------------
  // split_integer

  /** `int(s, 2)` on a string of binary digits with an optional leading '-' (the only
      strings split_integer produces); the empty string and a bare '-' raise ValueError. */
  function ParseBin(s: string): (r: Option<int>)
    ensures IsBinary(s) ==> (r.Some? <==> s != [])
  {
    if s == [] then None
    else if s[0] == '-' then
      (if |s| >= 2 && IsBinary(s[1..]) then var v: int := BinValue(s[1..]); Some(-v) else None)
    else if IsBinary(s) then Some(BinValue(s))
    else None
  }

  /** The digits of register k in f'{n:0{bitsize}b}'. */
  function Field(regs: seq<Register>, n: int, k: nat): string
    requires k < |regs|
  {
    Slice(FormatBin(n, Offset(regs, |regs|)).value, Offset(regs, k), Offset(regs, k) + regs[k].bitsize)
  }

  datatype SplitError = InvalidLiteral(name: string)

  /** Register j's digits parse, and it maps to their value. */
  ghost predicate HasValue(regs: seq<Register>, n: int, m: map<string, int>, j: nat)
    requires j < |regs|
  {
    ParseBin(Field(regs, n, j)).Some? && regs[j].name in m && m[regs[j].name] == ParseBin(Field(regs, n, j)).value
  }

  /** Registers 0..k-1, and no other names, hold the values of their digit fields. */
  ghost predicate ValuesUpTo(regs: seq<Register>, n: int, m: map<string, int>, k: nat)
    requires k <= |regs|
  {
    m.Keys == Names(regs, k) && forall j | 0 <= j < k :: HasValue(regs, n, m, j)
  }

  lemma {:induction false} ValuesStep(regs: seq<Register>, n: int, m: map<string, int>, k: nat)
    requires DistinctNames(regs) && k < |regs| && ValuesUpTo(regs, n, m, k) && ParseBin(Field(regs, n, k)).Some?
    ensures ValuesUpTo(regs, n, m[regs[k].name := ParseBin(Field(regs, n, k)).value], k + 1)
  {
    var m' := m[regs[k].name := ParseBin(Field(regs, n, k)).value];
    assert Names(regs, k + 1) == Names(regs, k) + {regs[k].name};
    forall j | 0 <= j < k + 1 ensures HasValue(regs, n, m', j) {
      if j < k {
        assert HasValue(regs, n, m, j);
        assert regs[j].name != regs[k].name;
      }
    }
  }

  /** `split_integer`: formats n in bitsize binary digits and reads each register's
      digits as an integer; the first register whose digits do not parse (an empty field,
      or a bare sign) raises. */
  method SplitInteger(r: ValidRegisters, n: int) returns (res: Result<map<string, int>, SplitError>)
    ensures res.Ok? <==> forall k | 0 <= k < |r.regs| :: ParseBin(Field(r.regs, n, k)).Some?
    ensures res.Ok? ==> ValuesUpTo(r.regs, n, res.value, |r.regs|)
    ensures res.Err? ==> exists k | 0 <= k < |r.regs| ::
      ParseBin(Field(r.regs, n, k)).None? && res.error == InvalidLiteral(r.regs[k].name)
  {
    var vals: map<string, int> := map[];
    var base := 0;
    var nBin := FormatBin(n, Bitsize(r)).value;
    var k := 0;
    while k < |r.regs|
      invariant k <= |r.regs| && base == Offset(r.regs, k)
      invariant ValuesUpTo(r.regs, n, vals, k)
    {
      var reg := r.regs[k];
      var v := ParseBin(Slice(nBin, base, base + reg.bitsize));
      assert v == ParseBin(Field(r.regs, n, k));
      if v.None? {
        return Err(InvalidLiteral(reg.name));
      }
      ValuesStep(r.regs, n, vals, k);
      vals := vals[reg.name := v.value];
      base := base + reg.bitsize;
      k := k + 1;
    }
    forall j | 0 <= j < |r.regs| ensures ParseBin(Field(r.regs, n, j)).Some? {
      assert HasValue(r.regs, n, vals, j);
    }
    res := Ok(vals);
  }

  /** For 0 <= n < 2^bitsize, the field of register k parses exactly when the register has
      at least one bit, and its value is bits Offset..Offset+bitsize of n counted from the
      most significant: (n / 2^(bitsize - Offset - width)) mod 2^width. */
  lemma {:induction false} FieldValue(regs: seq<Register>, n: int, k: nat)
    requires k < |regs| && 0 <= n < Pow2(Offset(regs, |regs|))
    ensures ParseBin(Field(regs, n, k)).Some? <==> regs[k].bitsize >= 1
    ensures ParseBin(Field(regs, n, k)).Some? ==>
      var lo, hi := Offset(regs, k), Offset(regs, k) + regs[k].bitsize;
      hi <= Offset(regs, |regs|) && ParseBin(Field(regs, n, k)).value == (n / Pow2(Offset(regs, |regs|) - hi)) % Pow2(hi - lo)
  {
    var t := Offset(regs, |regs|);
    var lo, hi := Offset(regs, k), Offset(regs, k) + regs[k].bitsize;
    FieldInRange(regs, k);
    var s := FormatBin(n, t).value;
    if regs[k].bitsize >= 1 {
      DigitField(n, t, lo, hi);
      SliceInRange(s, lo, hi);
    } else {
      SliceInRange(s, lo, hi);
    }
  }

  /** Digits lo..hi of the t-digit form of n read back as bits lo..hi of n. */
  lemma {:induction false} DigitField(n: nat, t: nat, lo: nat, hi: nat)
    requires lo < hi <= t && n < Pow2(t)
    ensures var s := FormatBin(n, t).value;
      |s| == t && ParseBin(s[lo..hi]) == Some((n / Pow2(t - hi)) % Pow2(hi - lo))
  {
    var s := FormatBin(n, t).value;
    FormatBinBits(n, t);
    BinValueSlice(s, lo, hi);
    FixedBitsField(n, t, lo, hi);
  }

  /** For 0 <= n < 2^bitsize, split_integer succeeds exactly when no register is zero
      bits wide. */
  lemma {:induction false} SplitIntegerSucceeds(regs: seq<Register>, n: int)
    requires 0 <= n < Pow2(Offset(regs, |regs|))
    ensures (forall k | 0 <= k < |regs| :: ParseBin(Field(regs, n, k)).Some?)
        <==> forall k | 0 <= k < |regs| :: regs[k].bitsize >= 1
  {
    forall k | 0 <= k < |regs|
      ensures ParseBin(Field(regs, n, k)).Some? <==> regs[k].bitsize >= 1
    {
      FieldValue(regs, n, k);
    }
  }
}
