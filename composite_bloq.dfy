// Building a composite bloq (cirq_qubitization/quantum_graph/composite_bloq.py): the builder
// hands out soquets (the wire ends of registers), connects each one to exactly one input of a
// later bloq instance or of the outer boundary, and refuses to finish while any is unused.
// The helper that groups connections by the pair of instances they join is modelled too.

module CompositeBloqs {
  import opened Wrappers

  /** Which way a register's wires go: in only, out only, or through. */
  datatype Side = Left | Right | Thru

  /** A register: its name, width, wire shape (an array of wires) and side. */
  datatype Register = Register(name: string, bitsize: nat, wireshape: seq<nat>, side: Side)

  /** `registers.lefts()` and `registers.rights()`: THRU registers are both. */
  function Lefts(regs: seq<Register>): (r: seq<Register>)
    ensures forall k | 0 <= k < |r| :: r[k] in regs && r[k].side != Right
    ensures forall x | x in regs && x.side != Right :: x in r
  {
    if regs == [] then []
    else
      var rest := Lefts(regs[..|regs| - 1]);
      var x := regs[|regs| - 1];
      assert forall y | y in regs[..|regs| - 1] :: y in regs;
      if x.side != Right then rest + [x] else rest
  }

  function Rights(regs: seq<Register>): (r: seq<Register>)
    ensures forall k | 0 <= k < |r| :: r[k] in regs && r[k].side != Left
    ensures forall x | x in regs && x.side != Left :: x in r
  {
    if regs == [] then []
    else
      var rest := Rights(regs[..|regs| - 1]);
      var x := regs[|regs| - 1];
      assert forall y | y in regs[..|regs| - 1] :: y in regs;
      if x.side != Left then rest + [x] else rest
  }

  predicate DistinctNames(regs: seq<Register>) {
    forall a, b | 0 <= a < b < |regs| :: regs[a].name != regs[b].name
  }

  // ---------------------------------------------------------------------------------
  // Wire indices

  /** The index tuples i with 0 <= i[d] < shape[d], in row-major order (`np.ndindex`); the
      empty shape has the one empty index. */
  function Ndindex(shape: seq<nat>): seq<seq<nat>>
    decreases |shape|, 1, 0
  {
    if shape == [] then [[]] else Ranges(shape[0], shape[1..])
  }

  /** The indices with first entry below n, in order of that entry. */
  function Ranges(n: nat, tail: seq<nat>): seq<seq<nat>>
    decreases |tail| + 1, 0, n
  {
    if n == 0 then [] else Ranges(n - 1, tail) + Prefixed(n - 1, Ndindex(tail))
  }

  function Prefixed(i: nat, rest: seq<seq<nat>>): (r: seq<seq<nat>>)
    ensures |r| == |rest| && forall k | 0 <= k < |r| :: r[k] == [i] + rest[k]
  {
    seq(|rest|, k requires 0 <= k < |rest| => [i] + rest[k])
  }

  predicate InShape(t: seq<nat>, shape: seq<nat>) {
    |t| == |shape| && forall d | 0 <= d < |t| :: t[d] < shape[d]
  }

  /** `wire_idxs()` lists every index of the wire shape and nothing else. */
  lemma {:induction false} NdindexSpec(shape: seq<nat>, t: seq<nat>)
    ensures t in Ndindex(shape) <==> InShape(t, shape)
    decreases |shape|
  {
    if shape != [] {
      RangesSpec(shape[0], shape[1..], t);
      if |t| >= 1 {
        NdindexSpec(shape[1..], t[1..]);
        assert InShape(t, shape) <==> t[0] < shape[0] && InShape(t[1..], shape[1..]) by {
          if t[0] < shape[0] && InShape(t[1..], shape[1..]) {
            forall d | 0 <= d < |t|
              ensures t[d] < shape[d]
            {
              if d > 0 {
                assert t[1..][d - 1] == t[d];
              }
            }
          }
          if InShape(t, shape) {
            assert forall d | 0 <= d < |t| - 1 :: t[1..][d] == t[d + 1];
          }
        }
      }
    }
  }

  lemma {:induction false} RangesSpec(n: nat, tail: seq<nat>, t: seq<nat>)
    ensures t in Ranges(n, tail) <==> |t| >= 1 && t[0] < n && t[1..] in Ndindex(tail)
    decreases n
  {
    if n > 0 {
      RangesSpec(n - 1, tail, t);
      var rest := Ndindex(tail);
      if |t| >= 1 && t[0] == n - 1 && t[1..] in rest {
        var k :| 0 <= k < |rest| && rest[k] == t[1..];
        assert Prefixed(n - 1, rest)[k] == t;
      }
      if t in Prefixed(n - 1, rest) {
        var k :| 0 <= k < |rest| && Prefixed(n - 1, rest)[k] == t;
        assert t[1..] == rest[k];
      }
    }
  }

  // ---------------------------------------------------------------------------------
  // Instances, soquets and connections

  /** A bloq, seen through its name and registers. */
  datatype Bloq = Bloq(name: string, regs: seq<Register>)

  /** A node of the wire graph: the two boundaries, or the i-th instance added. */
  datatype BloqInstance = LeftDangle | RightDangle | Inst(bloq: Bloq, i: nat)

  /** One wire end: an instance, one of its registers and an index into the wire shape. */
  datatype Soquet = Soquet(binst: BloqInstance, reg: Register, idx: seq<nat>)

  datatype Connection = Connection(left: Soquet, right: Soquet)

  datatype CompositeBloq = CompositeBloq(cxns: seq<Connection>, regs: seq<Register>)

  /** `CBBAddResult`: the new instance and, per right register, its output soquets. */
  datatype AddResult = AddResult(binst: BloqInstance, soquets: seq<seq<Soquet>>)

  /** The BloqBuilderError cases, and ShapeMismatch: a register's soquet sequence whose length
      is not the register's wire count (the model's flat stand-in for a numpy array of the
      register's shape). */
  datatype BuilderError =
    | MissingInput(name: string)
    | ShapeMismatch(name: string)
    | Unavailable(soq: Soquet)
    | Surplus(names: set<string>)
    | Unused(soqs: set<Soquet>)

  /** The soquets of one register of an instance, in wire-index order. */
  function WireSoqs(binst: BloqInstance, reg: Register): (r: seq<Soquet>)
    ensures |r| == |Ndindex(reg.wireshape)|
    ensures forall k | 0 <= k < |r| :: r[k] == Soquet(binst, reg, Ndindex(reg.wireshape)[k])
  {
    seq(|Ndindex(reg.wireshape)|, k requires 0 <= k < |Ndindex(reg.wireshape)| => Soquet(binst, reg, Ndindex(reg.wireshape)[k]))
  }

  /** The soquets of all the given registers of an instance, register after register. */
  function AllWires(binst: BloqInstance, regs: seq<Register>): (r: seq<Soquet>)
    ensures |r| == Width(regs)
    ensures forall k | 0 <= k < |r| :: r[k].binst == binst
  {
    if regs == [] then [] else AllWires(binst, regs[..|regs| - 1]) + WireSoqs(binst, regs[|regs| - 1])
  }

  /** The number of wires of the given registers. */
  function Width(regs: seq<Register>): nat {
    if regs == [] then 0 else Width(regs[..|regs| - 1]) + |Ndindex(regs[|regs| - 1].wireshape)|
  }

  function SoqSet(s: seq<Soquet>): set<Soquet> {
    set k | 0 <= k < |s| :: s[k]
  }

  /** The soquets supplied for the given registers fit them: every name is there with one
      soquet per wire. */
  predicate Fits(regs: seq<Register>, inSoqs: map<string, seq<Soquet>>) {
    forall k | 0 <= k < |regs| ::
      regs[k].name in inSoqs && |inSoqs[regs[k].name]| == |Ndindex(regs[k].wireshape)|
  }

  /** The supplied soquets, register after register. */
  function Feed(regs: seq<Register>, inSoqs: map<string, seq<Soquet>>): (r: seq<Soquet>)
    requires Fits(regs, inSoqs)
    ensures |r| == Width(regs)
  {
    if regs == [] then []
    else
      assert Fits(regs[..|regs| - 1], inSoqs) by {
        assert forall k | 0 <= k < |regs| - 1 :: regs[..|regs| - 1][k] == regs[k];
      }
      Feed(regs[..|regs| - 1], inSoqs) + inSoqs[regs[|regs| - 1].name]
  }

  /** Each soquet of the list is available and none comes twice: using them in turn removes
      each from the available set exactly once. */
  ghost predicate Linear(feed: seq<Soquet>, avail: set<Soquet>) {
    && (forall k | 0 <= k < |feed| :: feed[k] in avail)
    && (forall a, b | 0 <= a < b < |feed| :: feed[a] != feed[b])
  }

  /** The connections joining each supplied soquet to its wire of the target. */
  function Zip(ls: seq<Soquet>, rs: seq<Soquet>): (r: seq<Connection>)
    requires |ls| == |rs|
    ensures |r| == |ls| && forall k | 0 <= k < |r| :: r[k] == Connection(ls[k], rs[k])
  {
    seq(|ls|, k requires 0 <= k < |ls| => Connection(ls[k], rs[k]))
  }

  function LeftEnds(cxns: seq<Connection>): (r: seq<Soquet>)
    ensures |r| == |cxns| && forall k | 0 <= k < |r| :: r[k] == cxns[k].left
  {
    seq(|cxns|, k requires 0 <= k < |cxns| => cxns[k].left)
  }

  function Names(regs: seq<Register>): set<string> {
    set k | 0 <= k < |regs| :: regs[k].name
  }

  /** The supplied inputs satisfy every check of advanced_add and finalize. */
  ghost predicate Accepts(regs: seq<Register>, inSoqs: map<string, seq<Soquet>>, avail: set<Soquet>) {
    && Fits(regs, inSoqs)
    && Linear(Feed(regs, inSoqs), avail)
    && inSoqs.Keys <= Names(regs)
  }

  // ---------------------------------------------------------------------------------
  // The instance graph

  /** The pair of instances a connection joins. */
  function Edge(c: Connection): (BloqInstance, BloqInstance) {
    (c.left.binst, c.right.binst)
  }

  /** The connections along edge e, in their original order. */
  function Filter(cxns: seq<Connection>, e: (BloqInstance, BloqInstance)): seq<Connection> {
    if cxns == [] then []
    else
      var last := cxns[|cxns| - 1];
      Filter(cxns[..|cxns| - 1], e) + if Edge(last) == e then [last] else []
  }

  /** Filter keeps exactly the connections along e. */
  lemma {:induction false} FilterSpec(cxns: seq<Connection>, e: (BloqInstance, BloqInstance), c: Connection)
    ensures c in Filter(cxns, e) <==> c in cxns && Edge(c) == e
  {
    if cxns != [] {
      var init := cxns[..|cxns| - 1];
      FilterSpec(init, e, c);
      assert cxns == init + [cxns[|cxns| - 1]];
    }
  }

  lemma {:induction false} FilterEmpty(cxns: seq<Connection>, e: (BloqInstance, BloqInstance))
    requires forall k | 0 <= k < |cxns| :: Edge(cxns[k]) != e
    ensures Filter(cxns, e) == []
  {
    if cxns != [] {
      var init := cxns[..|cxns| - 1];
      assert forall k | 0 <= k < |init| :: init[k] == cxns[k];
      FilterEmpty(init, e);
    }
  }

  /** `_create_binst_graph`: one edge per pair of instances some connection joins, carrying
      that pair's connections in order; no connection is dropped and no edge is empty. */
  method BinstGraph(cxns: seq<Connection>) returns (g: map<(BloqInstance, BloqInstance), seq<Connection>>)
    ensures forall k | 0 <= k < |cxns| :: Edge(cxns[k]) in g
    ensures forall e | e in g :: g[e] == Filter(cxns, e) && g[e] != []
  {
    g := map[];
    var i := 0;
    while i < |cxns|
      invariant 0 <= i <= |cxns| && GraphInv(cxns, i, g)
    {
      var c := cxns[i];
      var e := Edge(c);
      ghost var g0 := g;
      if e in g {
        g := g[e := g[e] + [c]];
      } else {
        g := g[e := [c]];
      }
      GraphStep(cxns, i, g0, g);
      i := i + 1;
    }
    assert cxns[..i] == cxns;
  }

  /** The loop invariant of BinstGraph after i connections. */
  ghost predicate GraphInv(cxns: seq<Connection>, i: nat, g: map<(BloqInstance, BloqInstance), seq<Connection>>)
    requires i <= |cxns|
  {
    && (forall k | 0 <= k < i :: Edge(cxns[k]) in g)
    && (forall e | e in g :: g[e] == Filter(cxns[..i], e) && g[e] != [])
  }

  /** Appending connection i to its edge's list, or starting that list, keeps the invariant. */
  lemma {:induction false} GraphStep(cxns: seq<Connection>, i: nat, g: map<(BloqInstance, BloqInstance), seq<Connection>>,
                                     g': map<(BloqInstance, BloqInstance), seq<Connection>>)
    requires i < |cxns| && GraphInv(cxns, i, g)
    requires var e := Edge(cxns[i]);
      g' == if e in g then g[e := g[e] + [cxns[i]]] else g[e := [cxns[i]]]
    ensures GraphInv(cxns, i + 1, g')
  {
    var c := cxns[i];
    var e := Edge(c);
    assert cxns[..i + 1][..i] == cxns[..i] && cxns[..i + 1][i] == c;
    if e !in g {
      assert forall k | 0 <= k < i :: cxns[..i][k] == cxns[k];
      FilterEmpty(cxns[..i], e);
    }
  }

  /** Every connection is carried by its own edge of the graph and by no other. */
  lemma {:induction false} BinstGraphKeepsAll(cxns: seq<Connection>, g: map<(BloqInstance, BloqInstance), seq<Connection>>,
                                              e: (BloqInstance, BloqInstance), c: Connection)
    requires forall k | 0 <= k < |cxns| :: Edge(cxns[k]) in g
    requires forall e' | e' in g :: g[e'] == Filter(cxns, e')
    requires e in g
    ensures c in g[e] <==> c in cxns && Edge(c) == e
    ensures c in cxns ==> Edge(c) in g && c in g[Edge(c)]
  {
    FilterSpec(cxns, e, c);
    if c in cxns {
      FilterSpec(cxns, Edge(c), c);
    }
  }

  // ---------------------------------------------------------------------------------
  // The builder

  /** `CompositeBloqBuilder(parent_regs)`.  `produced` records every soquet ever handed out;
      `nInstances` numbers the instances added so far. */
  class CompositeBloqBuilder {
    var cxns: seq<Connection>
    const parentRegs: seq<Register>
    var available: set<Soquet>
    const initialSoquets: map<string, seq<Soquet>>
    var nInstances: nat
    ghost var produced: set<Soquet>

    /** Linearity: see ValidState. */
    ghost predicate Valid()
      reads this
    {
      ValidState(available, cxns, produced, nInstances)
    }

    /** `__init__` and `_initialize_soquets`: one available soquet on the left boundary for
        every wire of every left register of the parent, and no connection yet. */
    constructor(parentRegs: seq<Register>)
      ensures Valid()
      ensures this.parentRegs == parentRegs && cxns == [] && nInstances == 0
      ensures available == SoqSet(AllWires(LeftDangle, Lefts(parentRegs)))
      ensures initialSoquets == InitialMap(Lefts(parentRegs))
    {
      var lefts := Lefts(parentRegs);
      var avail: set<Soquet> := {};
      var ret: map<string, seq<Soquet>> := map[];
      var k := 0;
      while k < |lefts|
        invariant 0 <= k <= |lefts|
        invariant avail == SoqSet(AllWires(LeftDangle, lefts[..k]))
        invariant ret == InitialMap(lefts[..k])
      {
        var out := WireSoqs(LeftDangle, lefts[k]);
        assert lefts[..k + 1][..k] == lefts[..k];
        SoqSetAppend(AllWires(LeftDangle, lefts[..k]), out);
        avail := avail + SoqSet(out);
        ret := ret[lefts[k].name := out];
        k := k + 1;
      }
      assert lefts[..k] == lefts;
      InitialValid(AllWires(LeftDangle, lefts));
      this.parentRegs := parentRegs;
      cxns := [];
      available := avail;
      initialSoquets := ret;
      nInstances := 0;
      produced := avail;
    }

    /** The inner loop over the wires of one register: each supplied soquet in turn is
        removed from the available set and connected to its wire of `target`, until one is
        not available.  `w` counts the soquets consumed. */
    method ConsumeWires(target: BloqInstance, reg: Register, soqs: seq<Soquet>) returns (ok: bool, w: nat)
      requires Valid() && |soqs| == |Ndindex(reg.wireshape)|
      modifies this
      ensures Valid() && produced == old(produced) && nInstances == old(nInstances)
      ensures w <= |soqs| && (ok <==> w == |soqs|)
      ensures !ok ==> soqs[w] !in old(available) - SoqSet(soqs[..w])
      ensures ConsumedState(old(available), old(cxns), soqs[..w], WireSoqs(target, reg)[..w], available, cxns)
    {
      var idxs := Ndindex(reg.wireshape);
      ghost var wires := WireSoqs(target, reg);
      assert soqs[..0] == [] && wires[..0] == [] && SoqSet([]) == {};
      w := 0;
      var i := 0;
      while i < |idxs|
        invariant w == i <= |idxs|
        invariant ConsumedState(old(available), old(cxns), soqs[..i], wires[..i], available, cxns)
        invariant produced == old(produced) && nInstances == old(nInstances) && Valid()
      {
        var soq := soqs[i];
        if soq !in available {
          return false, i;
        }
        var tgt := Soquet(target, reg, idxs[i]);
        WireStep(old(available), old(cxns), soqs, wires, i, available, cxns, produced, nInstances);
        available := available - {soq};
        cxns := cxns + [Connection(soq, tgt)];
        i := i + 1;
        w := i;
      }
      ok := true;
    }

    /** The loop advanced_add and finalize share: for each register, take the soquets
        supplied under its name (refusing a missing name or a wrong shape), and for each
        wire remove its soquet from the available set (refusing one that is not there) and
        connect it to the wire of `target`.  It succeeds exactly when the soquets fit the
        registers and can be used linearly, and then returns the names no register asked
        for.  On an error the steps already made stay made. */
    method ConsumeRegs(target: BloqInstance, regs: seq<Register>, inSoqs: map<string, seq<Soquet>>)
      returns (r: Result<map<string, seq<Soquet>>, BuilderError>)
      requires Valid() && DistinctNames(regs)
      modifies this
      ensures Valid() && produced == old(produced) && nInstances == old(nInstances)
      ensures r.Ok? <==> Fits(regs, inSoqs) && Linear(Feed(regs, inSoqs), old(available))
      ensures r.Ok? ==>
        && r.value.Keys == inSoqs.Keys - Names(regs)
        && cxns == old(cxns) + Zip(Feed(regs, inSoqs), AllWires(target, regs))
        && available == old(available) - SoqSet(Feed(regs, inSoqs))
      ensures r.Err? ==> !r.error.Surplus? && old(cxns) <= cxns && available <= old(available)
    {
      ghost var avail0, cxns0 := available, cxns;
      ghost var consumed: seq<Soquet> := [];
      ghost var wires: seq<Soquet> := [];
      var rest := inSoqs;
      var k := 0;
      RegsStart(avail0, cxns0, target, regs, inSoqs);
      while k < |regs|
        invariant RegsInv(avail0, cxns0, target, regs, inSoqs, k, consumed, wires, rest, available, cxns)
        invariant produced == old(produced) && nInstances == old(nInstances) && Valid()
      {
        ConsumedPrefix(avail0, cxns0, consumed, wires, available, cxns);
        var reg := regs[k];
        if reg.name !in rest {
          RegsMissing(avail0, cxns0, target, regs, inSoqs, k, consumed, wires, rest, available, cxns);
          return Err(MissingInput(reg.name));
        }
        var soqs := rest[reg.name];
        if |soqs| != |Ndindex(reg.wireshape)| {
          RegsShape(avail0, cxns0, target, regs, inSoqs, k, consumed, wires, rest, available, cxns);
          return Err(ShapeMismatch(reg.name));
        }
        ghost var availK, cxnsK := available, cxns;
        var ok, w := ConsumeWires(target, reg, soqs);
        if !ok {
          RegsUnavailable(avail0, cxns0, target, regs, inSoqs, k, consumed, wires, rest, availK, cxnsK, w, available, cxns);
          return Err(Unavailable(soqs[w]));
        }
        RegsAdvance(avail0, cxns0, target, regs, inSoqs, k, consumed, wires, rest, availK, cxnsK, available, cxns);
        rest := rest - {reg.name};
        consumed, wires := consumed + soqs, wires + WireSoqs(target, reg);
        k := k + 1;
      }
      RegsDone(avail0, cxns0, target, regs, inSoqs, consumed, wires, rest, available, cxns);
      r := Ok(rest);
    }

    /** ConsumeRegs followed by the refusal of names no register asked for. */
    method Consume(target: BloqInstance, regs: seq<Register>, inSoqs: map<string, seq<Soquet>>)
      returns (r: Result<(), BuilderError>)
      requires Valid() && DistinctNames(regs)
      modifies this
      ensures Valid()
      ensures produced == old(produced) && nInstances == old(nInstances)
      ensures r.Ok? <==> Accepts(regs, inSoqs, old(available))
      ensures r.Ok? ==>
        && cxns == old(cxns) + Zip(Feed(regs, inSoqs), AllWires(target, regs))
        && available == old(available) - SoqSet(Feed(regs, inSoqs))
      ensures r.Err? ==> old(cxns) <= cxns && available <= old(available)
      ensures r == Err(Surplus(inSoqs.Keys - Names(regs))) <==>
        Fits(regs, inSoqs) && Linear(Feed(regs, inSoqs), old(available)) && !(inSoqs.Keys <= Names(regs))
    {
      var rest := ConsumeRegs(target, regs, inSoqs);
      if rest.Err? {
        return Err(rest.error);
      }
      if rest.value != map[] {
        var name :| name in rest.value;
        assert name in inSoqs.Keys && name !in Names(regs);
        return Err(Surplus(rest.value.Keys));
      }
      forall n | n in inSoqs.Keys
        ensures n in Names(regs)
      {
        assert n !in rest.value;
      }
      r := Ok(());
    }

    /** The outputs of advanced_add: every wire of every right register of `binst` becomes
        an available soquet, listed per register. */
    method Publish(binst: BloqInstance, rights: seq<Register>) returns (outSoqs: seq<seq<Soquet>>)
      requires Valid() && binst.Inst? && binst.i < nInstances
      requires forall s | s in produced :: s.binst != binst
      modifies this
      ensures Valid() && cxns == old(cxns) && nInstances == old(nInstances)
      ensures |outSoqs| == |rights| && forall j | 0 <= j < |rights| :: outSoqs[j] == WireSoqs(binst, rights[j])
      ensures available == old(available) + SoqSet(AllWires(binst, rights))
      ensures produced == old(produced) + SoqSet(AllWires(binst, rights))
    {
      outSoqs := [];
      var k := 0;
      PublishStart(available, produced, cxns, nInstances, binst, rights);
      while k < |rights|
        invariant PublishInv(old(available), old(produced), cxns, nInstances, binst, rights, k, outSoqs, available, produced)
        invariant cxns == old(cxns) && nInstances == old(nInstances)
      {
        var out := WireSoqs(binst, rights[k]);
        PublishStep(old(available), old(produced), cxns, nInstances, binst, rights, k, outSoqs, available, produced);
        available := available + SoqSet(out);
        produced := produced + SoqSet(out);
        outSoqs := outSoqs + [out];
        k := k + 1;
      }
      PublishDone(old(available), old(produced), cxns, nInstances, binst, rights, outSoqs, available, produced);
    }

    /** `advanced_add(bloq, **in_soqs)`: a new numbered instance consumes the supplied
        soquets, one connection per left wire, and each of its right wires becomes an
        available soquet; the result lists them per right register. */
    method AdvancedAdd(bloq: Bloq, inSoqs: map<string, seq<Soquet>>) returns (r: Result<AddResult, BuilderError>)
      requires Valid() && DistinctNames(Lefts(bloq.regs))
      modifies this
      ensures Valid()
      ensures nInstances == old(nInstances) + 1
      ensures r.Ok? <==> Accepts(Lefts(bloq.regs), inSoqs, old(available))
      ensures r.Ok? ==>
        var binst := Inst(bloq, old(nInstances));
        && r.value.binst == binst
        && |r.value.soquets| == |Rights(bloq.regs)|
        && (forall k | 0 <= k < |r.value.soquets| :: r.value.soquets[k] == WireSoqs(binst, Rights(bloq.regs)[k]))
        && cxns == old(cxns) + Zip(Feed(Lefts(bloq.regs), inSoqs), AllWires(binst, Lefts(bloq.regs)))
        && available == (old(available) - SoqSet(Feed(Lefts(bloq.regs), inSoqs))) + SoqSet(AllWires(binst, Rights(bloq.regs)))
    {
      var binst := Inst(bloq, nInstances);
      assert forall s | s in produced :: s.binst != binst;
      nInstances := nInstances + 1;
      var consumed := Consume(binst, Lefts(bloq.regs), inSoqs);
      if consumed.Err? {
        return Err(consumed.error);
      }
      var outSoqs := Publish(binst, Rights(bloq.regs));
      r := Ok(AddResult(binst, outSoqs));
    }

    /** `finalize(**final_soqs)`: the parent's right registers consume the supplied soquets
        into connections to the right boundary, and the build fails if any soquet is left
        unused; once it succeeds every soquet handed out is the left end of exactly one
        connection. */
    method Finalize(finalSoqs: map<string, seq<Soquet>>) returns (r: Result<CompositeBloq, BuilderError>)
      requires Valid() && DistinctNames(Rights(parentRegs))
      modifies this
      ensures Valid()
      ensures r.Ok? <==> Accepts(Rights(parentRegs), finalSoqs, old(available))
                         && old(available) == SoqSet(Feed(Rights(parentRegs), finalSoqs))
      ensures r.Ok? ==>
        && cxns == old(cxns) + Zip(Feed(Rights(parentRegs), finalSoqs), AllWires(RightDangle, Rights(parentRegs)))
        && r.value == CompositeBloq(cxns, parentRegs)
        && available == {}
        && (forall s | s in produced :: s in LeftEnds(cxns))
        && (forall a, b | 0 <= a < b < |cxns| :: cxns[a].left != cxns[b].left)
      ensures r.Err? && Accepts(Rights(parentRegs), finalSoqs, old(available)) ==> r == Err(Unused(available))
    {
      var consumed := Consume(RightDangle, Rights(parentRegs), finalSoqs);
      if consumed.Err? {
        return Err(consumed.error);
      }
      if available != {} {
        return Err(Unused(available));
      }
      r := Ok(CompositeBloq(cxns, parentRegs));
    }
  }

  /** `initial_soquets()`: each left register's name maps to its boundary soquets; a later
      register of the same name would win, as in a Python dict. */
  function InitialMap(lefts: seq<Register>): map<string, seq<Soquet>> {
    if lefts == [] then map[]
    else InitialMap(lefts[..|lefts| - 1])[lefts[|lefts| - 1].name := WireSoqs(LeftDangle, lefts[|lefts| - 1])]
  }

  /** The initial map has exactly the names of the left registers. */
  lemma {:induction false} InitialMapKeys(lefts: seq<Register>)
    ensures InitialMap(lefts).Keys == Names(lefts)
  {
    if lefts != [] {
      var n := |lefts|;
      var init := lefts[..n - 1];
      InitialMapKeys(init);
      assert lefts == init + [lefts[n - 1]];
      assert Names(lefts) == Names(init) + {lefts[n - 1].name};
    }
  }

  /** Every left register has its boundary soquets in the initial map, for distinct names. */
  lemma {:induction false} InitialMapSpec(lefts: seq<Register>, k: nat)
    requires DistinctNames(lefts) && k < |lefts|
    ensures lefts[k].name in InitialMap(lefts) && InitialMap(lefts)[lefts[k].name] == WireSoqs(LeftDangle, lefts[k])
  {
    var n := |lefts|;
    var init := lefts[..n - 1];
    if k < n - 1 {
      assert init[k] == lefts[k];
      assert DistinctNames(init) by {
        assert forall j | 0 <= j < n - 1 :: init[j] == lefts[j];
      }
      InitialMapSpec(init, k);
      assert lefts[n - 1].name != lefts[k].name;
    }
  }

  /** The state just after initialisation is linear. */
  lemma InitialValid(s: seq<Soquet>)
    requires forall k | 0 <= k < |s| :: s[k].binst == LeftDangle
    ensures ValidState(SoqSet(s), [], SoqSet(s), 0)
  {
  }

  lemma SoqSetSingle(soq: Soquet)
    ensures SoqSet([soq]) == {soq}
  {
    assert [soq][0] == soq;
  }

  /** Two consumptions in a row make one. */
  lemma {:induction false} ConsumedCompose(avail0: set<Soquet>, cxns0: seq<Connection>, c1: seq<Soquet>, w1: seq<Soquet>,
                                           avail1: set<Soquet>, cxns1: seq<Connection>, c2: seq<Soquet>, w2: seq<Soquet>,
                                           avail2: set<Soquet>, cxns2: seq<Connection>)
    requires ConsumedState(avail0, cxns0, c1, w1, avail1, cxns1)
    requires ConsumedState(avail1, cxns1, c2, w2, avail2, cxns2)
    ensures ConsumedState(avail0, cxns0, c1 + c2, w1 + w2, avail2, cxns2)
  {
    assert avail2 == avail0 - SoqSet(c1 + c2) by {
      SoqSetAppend(c1, c2);
    }
    assert cxns2 == cxns0 + Zip(c1 + c2, w1 + w2) by {
      ZipAppend(c1, w1, c2, w2);
    }
    LinearAppend(c1, c2, avail0);
  }

  lemma ZipAppend(c1: seq<Soquet>, w1: seq<Soquet>, c2: seq<Soquet>, w2: seq<Soquet>)
    requires |c1| == |w1| && |c2| == |w2|
    ensures Zip(c1 + c2, w1 + w2) == Zip(c1, w1) + Zip(c2, w2)
  {
  }

  /** Using c1 and then, from what is left, c2 uses c1 + c2 linearly. */
  lemma {:induction false} LinearAppend(c1: seq<Soquet>, c2: seq<Soquet>, avail0: set<Soquet>)
    requires Linear(c1, avail0) && Linear(c2, avail0 - SoqSet(c1))
    ensures Linear(c1 + c2, avail0)
  {
    var c := c1 + c2;
    forall a, b | 0 <= a < b < |c|
      ensures c[a] != c[b]
    {
      if a < |c1| && b >= |c1| {
        assert c[b] == c2[b - |c1|];
        assert c[a] in SoqSet(c1);
      } else if a >= |c1| {
        assert c[a] == c2[a - |c1|] && c[b] == c2[b - |c1|];
      }
    }
    forall k | 0 <= k < |c|
      ensures c[k] in avail0
    {
      if k >= |c1| {
        assert c[k] == c2[k - |c1|];
      }
    }
  }

  /** Linearity of a builder state: every soquet handed out (`prod`) is either still
      available or the left end of exactly one connection, never both; and every one belongs
      to the left boundary or to an instance numbered below n. */
  ghost predicate ValidState(avail: set<Soquet>, cx: seq<Connection>, prod: set<Soquet>, n: nat) {
    && avail <= prod
    && (forall a, b | 0 <= a < b < |cx| :: cx[a].left != cx[b].left)
    && (forall k | 0 <= k < |cx| :: cx[k].left in prod && cx[k].left !in avail)
    && (forall s | s in prod :: s in avail || s in LeftEnds(cx))
    && (forall s | s in prod :: s.binst.LeftDangle? || (s.binst.Inst? && s.binst.i < n))
  }

  /** The consumption so far: the available set lost exactly the consumed soquets, all
      distinct and once available, and the connections grew by one per consumed soquet,
      joining it to its wire of the target. */
  ghost predicate ConsumedState(avail0: set<Soquet>, cxns0: seq<Connection>, consumed: seq<Soquet>,
                                wires: seq<Soquet>, avail: set<Soquet>, cx: seq<Connection>)
  {
    && |consumed| == |wires|
    && Linear(consumed, avail0)
    && avail == avail0 - SoqSet(consumed)
    && cx == cxns0 + Zip(consumed, wires)
  }

  /** Using one more available soquet keeps both the record of the consumption and
      linearity. */
  lemma {:induction false} ConsumeStep(avail0: set<Soquet>, cxns0: seq<Connection>, consumed: seq<Soquet>,
                                       wires: seq<Soquet>, avail: set<Soquet>, cx: seq<Connection>,
                                       prod: set<Soquet>, n: nat, soq: Soquet, tgt: Soquet)
    requires ConsumedState(avail0, cxns0, consumed, wires, avail, cx)
    requires ValidState(avail, cx, prod, n) && soq in avail
    ensures ConsumedState(avail0, cxns0, consumed + [soq], wires + [tgt], avail - {soq}, cx + [Connection(soq, tgt)])
    ensures ValidState(avail - {soq}, cx + [Connection(soq, tgt)], prod, n)
  {
    var cx' := cx + [Connection(soq, tgt)];
    assert Zip(consumed + [soq], wires + [tgt]) == Zip(consumed, wires) + [Connection(soq, tgt)];
    SoqSetAppend(consumed, [soq]);
    SoqSetSingle(soq);
    assert soq !in SoqSet(consumed);
    assert LeftEnds(cx') == LeftEnds(cx) + [soq];
    forall s | s in prod
      ensures s in avail - {soq} || s in LeftEnds(cx')
    {
      if s != soq && s !in avail {
        assert s in LeftEnds(cx);
      }
    }
  }

  /** ConsumeStep at position i of the supplied soquets and the target wires. */
  lemma {:induction false} WireStep(avail0: set<Soquet>, cxns0: seq<Connection>, soqs: seq<Soquet>, wires: seq<Soquet>,
                                    i: nat, avail: set<Soquet>, cx: seq<Connection>, prod: set<Soquet>, n: nat)
    requires i < |soqs| && i < |wires|
    requires ConsumedState(avail0, cxns0, soqs[..i], wires[..i], avail, cx)
    requires ValidState(avail, cx, prod, n) && soqs[i] in avail
    ensures ConsumedState(avail0, cxns0, soqs[..i + 1], wires[..i + 1], avail - {soqs[i]}, cx + [Connection(soqs[i], wires[i])])
    ensures ValidState(avail - {soqs[i]}, cx + [Connection(soqs[i], wires[i])], prod, n)
  {
    ConsumeStep(avail0, cxns0, soqs[..i], wires[..i], avail, cx, prod, n, soqs[i], wires[i]);
    assert soqs[..i + 1] == soqs[..i] + [soqs[i]];
    assert wires[..i + 1] == wires[..i] + [wires[i]];
  }

  /** The loop invariant of Publish after k registers. */
  ghost predicate PublishInv(avail0: set<Soquet>, prod0: set<Soquet>, cx: seq<Connection>, n: nat,
                             binst: BloqInstance, rights: seq<Register>, k: nat, outSoqs: seq<seq<Soquet>>,
                             avail: set<Soquet>, prod: set<Soquet>)
  {
    && k <= |rights| && binst.Inst? && binst.i < n
    && |outSoqs| == k && (forall j | 0 <= j < k :: outSoqs[j] == WireSoqs(binst, rights[j]))
    && avail == avail0 + SoqSet(AllWires(binst, rights[..k]))
    && prod == prod0 + SoqSet(AllWires(binst, rights[..k]))
    && ValidState(avail, cx, prod, n)
    && (forall s | s in prod && s.binst == binst :: s in avail)
  }

  lemma PublishStart(avail0: set<Soquet>, prod0: set<Soquet>, cx: seq<Connection>, n: nat,
                     binst: BloqInstance, rights: seq<Register>)
    requires ValidState(avail0, cx, prod0, n) && binst.Inst? && binst.i < n
    requires forall s | s in prod0 :: s.binst != binst
    ensures PublishInv(avail0, prod0, cx, n, binst, rights, 0, [], avail0, prod0)
  {
    assert rights[..0] == [] && SoqSet([]) == {};
  }

  /** Handing out the wires of register k of a new instance keeps linearity. */
  lemma {:induction false} PublishStep(avail0: set<Soquet>, prod0: set<Soquet>, cx: seq<Connection>, n: nat,
                                       binst: BloqInstance, rights: seq<Register>, k: nat, outSoqs: seq<seq<Soquet>>,
                                       avail: set<Soquet>, prod: set<Soquet>)
    requires k < |rights| && PublishInv(avail0, prod0, cx, n, binst, rights, k, outSoqs, avail, prod)
    ensures var out := WireSoqs(binst, rights[k]);
      PublishInv(avail0, prod0, cx, n, binst, rights, k + 1, outSoqs + [out], avail + SoqSet(out), prod + SoqSet(out))
  {
    var out := WireSoqs(binst, rights[k]);
    assert rights[..k + 1][..k] == rights[..k];
    SoqSetAppend(AllWires(binst, rights[..k]), out);
    AddOutputs(avail, cx, prod, n, binst, out);
  }

  lemma PublishDone(avail0: set<Soquet>, prod0: set<Soquet>, cx: seq<Connection>, n: nat,
                    binst: BloqInstance, rights: seq<Register>, outSoqs: seq<seq<Soquet>>,
                    avail: set<Soquet>, prod: set<Soquet>)
    requires PublishInv(avail0, prod0, cx, n, binst, rights, |rights|, outSoqs, avail, prod)
    ensures ValidState(avail, cx, prod, n)
    ensures avail == avail0 + SoqSet(AllWires(binst, rights))
    ensures prod == prod0 + SoqSet(AllWires(binst, rights))
  {
    assert rights[..|rights|] == rights;
  }

  /** Handing out the wires of an instance none of whose soquets was handed out before
      keeps linearity. */
  lemma {:induction false} AddOutputs(avail: set<Soquet>, cx: seq<Connection>, prod: set<Soquet>, n: nat,
                                      binst: BloqInstance, out: seq<Soquet>)
    requires ValidState(avail, cx, prod, n)
    requires binst.Inst? && binst.i < n && forall s | s in prod && s.binst == binst :: s in avail
    requires forall k | 0 <= k < |out| :: out[k].binst == binst
    ensures ValidState(avail + SoqSet(out), cx, prod + SoqSet(out), n)
  {
    forall k | 0 <= k < |cx|
      ensures cx[k].left !in SoqSet(out)
    {
      assert cx[k].left in prod;
    }
  }

  lemma SoqSetAppend(a: seq<Soquet>, b: seq<Soquet>)
    ensures SoqSet(a + b) == SoqSet(a) + SoqSet(b)
  {
    forall s | s in SoqSet(a + b)
      ensures s in SoqSet(a) + SoqSet(b)
    {
      var k :| 0 <= k < |a + b| && (a + b)[k] == s;
      if k >= |a| {
        assert b[k - |a|] == s;
      }
    }
    forall s | s in SoqSet(b)
      ensures s in SoqSet(a + b)
    {
      var k :| 0 <= k < |b| && b[k] == s;
      assert (a + b)[|a| + k] == s;
    }
    forall s | s in SoqSet(a)
      ensures s in SoqSet(a + b)
    {
      var k :| 0 <= k < |a| && a[k] == s;
      assert (a + b)[k] == s;
    }
  }

  lemma {:induction false} NamesAppend(regs: seq<Register>, k: nat)
    requires k < |regs|
    ensures Names(regs[..k + 1]) == Names(regs[..k]) + {regs[k].name}
  {
    assert forall j | 0 <= j < k :: regs[..k + 1][j] == regs[..k][j];
    assert regs[..k + 1][k] == regs[k];
  }

  /** With distinct register names, a register's name is not among the earlier ones. */
  lemma {:induction false} NameFresh(regs: seq<Register>, k: nat)
    requires DistinctNames(regs) && k < |regs|
    ensures regs[k].name !in Names(regs[..k])
  {
    assert forall j | 0 <= j < k :: regs[..k][j] == regs[j];
  }

  /** The loop invariant of ConsumeRegs after k registers: their soquets fit and were
      consumed in order, and `rest` holds the inputs not yet taken. */
  ghost predicate RegsInv(avail0: set<Soquet>, cxns0: seq<Connection>, target: BloqInstance, regs: seq<Register>,
                          inSoqs: map<string, seq<Soquet>>, k: nat, consumed: seq<Soquet>, wires: seq<Soquet>,
                          rest: map<string, seq<Soquet>>, avail: set<Soquet>, cx: seq<Connection>)
  {
    && k <= |regs|
    && Fits(regs[..k], inSoqs)
    && consumed == Feed(regs[..k], inSoqs) && wires == AllWires(target, regs[..k])
    && ConsumedState(avail0, cxns0, consumed, wires, avail, cx)
    && rest.Keys == inSoqs.Keys - Names(regs[..k])
    && (forall n | n in rest :: rest[n] == inSoqs[n])
  }

  lemma RegsStart(avail0: set<Soquet>, cxns0: seq<Connection>, target: BloqInstance, regs: seq<Register>,
                  inSoqs: map<string, seq<Soquet>>)
    ensures RegsInv(avail0, cxns0, target, regs, inSoqs, 0, [], [], inSoqs, avail0, cxns0)
  {
    assert regs[..0] == [] && SoqSet([]) == {};
  }

  lemma ConsumedPrefix(avail0: set<Soquet>, cxns0: seq<Connection>, consumed: seq<Soquet>, wires: seq<Soquet>,
                       avail: set<Soquet>, cx: seq<Connection>)
    requires ConsumedState(avail0, cxns0, consumed, wires, avail, cx)
    ensures cxns0 <= cx && avail <= avail0
  {
  }

  /** A register whose name was not supplied refuses the inputs. */
  lemma {:induction false} RegsMissing(avail0: set<Soquet>, cxns0: seq<Connection>, target: BloqInstance, regs: seq<Register>,
                                       inSoqs: map<string, seq<Soquet>>, k: nat, consumed: seq<Soquet>, wires: seq<Soquet>,
                                       rest: map<string, seq<Soquet>>, avail: set<Soquet>, cx: seq<Connection>)
    requires RegsInv(avail0, cxns0, target, regs, inSoqs, k, consumed, wires, rest, avail, cx)
    requires DistinctNames(regs) && k < |regs| && regs[k].name !in rest
    ensures !Fits(regs, inSoqs)
  {
    NameFresh(regs, k);
    assert regs[k].name !in inSoqs;
  }

  /** A supplied array of the wrong size refuses the inputs. */
  lemma RegsShape(avail0: set<Soquet>, cxns0: seq<Connection>, target: BloqInstance, regs: seq<Register>,
                  inSoqs: map<string, seq<Soquet>>, k: nat, consumed: seq<Soquet>, wires: seq<Soquet>,
                  rest: map<string, seq<Soquet>>, avail: set<Soquet>, cx: seq<Connection>)
    requires RegsInv(avail0, cxns0, target, regs, inSoqs, k, consumed, wires, rest, avail, cx)
    requires k < |regs| && regs[k].name in rest && |rest[regs[k].name]| != |Ndindex(regs[k].wireshape)|
    ensures !Fits(regs, inSoqs)
  {
    assert inSoqs[regs[k].name] == rest[regs[k].name];
  }

  /** An unavailable soquet at wire w of register k refuses the inputs, and what was done
      before it stays done. */
  lemma {:induction false} RegsUnavailable(avail0: set<Soquet>, cxns0: seq<Connection>, target: BloqInstance, regs: seq<Register>,
                                           inSoqs: map<string, seq<Soquet>>, k: nat, consumed: seq<Soquet>, wires: seq<Soquet>,
                                           rest: map<string, seq<Soquet>>, availK: set<Soquet>, cxnsK: seq<Connection>,
                                           w: nat, avail: set<Soquet>, cx: seq<Connection>)
    requires RegsInv(avail0, cxns0, target, regs, inSoqs, k, consumed, wires, rest, availK, cxnsK)
    requires k < |regs| && regs[k].name in rest && |rest[regs[k].name]| == |Ndindex(regs[k].wireshape)|
    requires var soqs := rest[regs[k].name];
      && w < |soqs| && soqs[w] !in availK - SoqSet(soqs[..w])
      && ConsumedState(availK, cxnsK, soqs[..w], WireSoqs(target, regs[k])[..w], avail, cx)
    ensures !(Fits(regs, inSoqs) && Linear(Feed(regs, inSoqs), avail0))
    ensures cxns0 <= cx && avail <= avail0
  {
    var soqs := rest[regs[k].name];
    ConsumedCompose(avail0, cxns0, consumed, wires, availK, cxnsK,
                    soqs[..w], WireSoqs(target, regs[k])[..w], avail, cx);
    SoqSetAppend(consumed, soqs[..w]);
    UnavailableRefuses(regs, inSoqs, avail0, k, w);
  }

  /** Consuming all the wires of register k advances the invariant by one register. */
  lemma {:induction false} RegsAdvance(avail0: set<Soquet>, cxns0: seq<Connection>, target: BloqInstance, regs: seq<Register>,
                                       inSoqs: map<string, seq<Soquet>>, k: nat, consumed: seq<Soquet>, wires: seq<Soquet>,
                                       rest: map<string, seq<Soquet>>, availK: set<Soquet>, cxnsK: seq<Connection>,
                                       avail: set<Soquet>, cx: seq<Connection>)
    requires RegsInv(avail0, cxns0, target, regs, inSoqs, k, consumed, wires, rest, availK, cxnsK)
    requires k < |regs| && regs[k].name in rest && |rest[regs[k].name]| == |Ndindex(regs[k].wireshape)|
    requires var soqs := rest[regs[k].name];
      ConsumedState(availK, cxnsK, soqs[..|soqs|], WireSoqs(target, regs[k])[..|soqs|], avail, cx)
    ensures var soqs := rest[regs[k].name];
      RegsInv(avail0, cxns0, target, regs, inSoqs, k + 1, consumed + soqs, wires + WireSoqs(target, regs[k]),
              rest - {regs[k].name}, avail, cx)
  {
    var soqs := rest[regs[k].name];
    var ws := WireSoqs(target, regs[k]);
    assert soqs[..|soqs|] == soqs && ws[..|soqs|] == ws;
    ConsumedCompose(avail0, cxns0, consumed, wires, availK, cxnsK, soqs, ws, avail, cx);
    assert soqs == inSoqs[regs[k].name];
    RegStep(regs, inSoqs, target, k);
  }

  /** After the last register the invariant gives the result of ConsumeRegs. */
  lemma RegsDone(avail0: set<Soquet>, cxns0: seq<Connection>, target: BloqInstance, regs: seq<Register>,
                 inSoqs: map<string, seq<Soquet>>, consumed: seq<Soquet>, wires: seq<Soquet>,
                 rest: map<string, seq<Soquet>>, avail: set<Soquet>, cx: seq<Connection>)
    requires RegsInv(avail0, cxns0, target, regs, inSoqs, |regs|, consumed, wires, rest, avail, cx)
    ensures Fits(regs, inSoqs) && Linear(Feed(regs, inSoqs), avail0)
    ensures rest.Keys == inSoqs.Keys - Names(regs)
    ensures cx == cxns0 + Zip(Feed(regs, inSoqs), AllWires(target, regs))
    ensures avail == avail0 - SoqSet(Feed(regs, inSoqs))
  {
    assert regs[..|regs|] == regs;
  }

  /** The lists of ConsumeRegs grow by one register. */
  lemma {:induction false} RegStep(regs: seq<Register>, inSoqs: map<string, seq<Soquet>>, target: BloqInstance, k: nat)
    requires k < |regs| && Fits(regs[..k], inSoqs)
    requires regs[k].name in inSoqs && |inSoqs[regs[k].name]| == |Ndindex(regs[k].wireshape)|
    ensures Fits(regs[..k + 1], inSoqs)
    ensures Feed(regs[..k + 1], inSoqs) == Feed(regs[..k], inSoqs) + inSoqs[regs[k].name]
    ensures AllWires(target, regs[..k + 1]) == AllWires(target, regs[..k]) + WireSoqs(target, regs[k])
    ensures Names(regs[..k + 1]) == Names(regs[..k]) + {regs[k].name}
  {
    PrefixFits(regs, inSoqs, k);
    NamesAppend(regs, k);
    assert regs[..k + 1][..k] == regs[..k];
  }

  /** One more register whose soquets fit. */
  lemma {:induction false} PrefixFits(regs: seq<Register>, inSoqs: map<string, seq<Soquet>>, k: nat)
    requires k < |regs| && Fits(regs[..k], inSoqs)
    requires regs[k].name in inSoqs && |inSoqs[regs[k].name]| == |Ndindex(regs[k].wireshape)|
    ensures Fits(regs[..k + 1], inSoqs)
    ensures Feed(regs[..k + 1], inSoqs) == Feed(regs[..k], inSoqs) + inSoqs[regs[k].name]
  {
    assert regs[..k + 1][..k] == regs[..k];
    assert forall j | 0 <= j < k :: regs[..k + 1][j] == regs[..k][j];
  }

  /** The soquets supplied for the first k registers come first in the whole feed. */
  lemma {:induction false} FeedPrefix(regs: seq<Register>, inSoqs: map<string, seq<Soquet>>, k: nat)
    requires Fits(regs, inSoqs) && k <= |regs|
    ensures Fits(regs[..k], inSoqs) && Feed(regs[..k], inSoqs) <= Feed(regs, inSoqs)
    decreases |regs|
  {
    var n := |regs|;
    assert forall j | 0 <= j < k :: regs[..k][j] == regs[j];
    if k < n {
      assert forall j | 0 <= j < n - 1 :: regs[..n - 1][j] == regs[j];
      assert regs[..n - 1][..k] == regs[..k];
      FeedPrefix(regs[..n - 1], inSoqs, k);
    } else {
      assert regs[..k] == regs;
    }
  }

  /** A prefix of a linear feed is linear. */
  lemma LinearPrefix(feed: seq<Soquet>, p: seq<Soquet>, avail: set<Soquet>)
    ensures p <= feed && Linear(feed, avail) ==> Linear(p, avail)
  {
    if p <= feed {
      assert forall k | 0 <= k < |p| :: p[k] == feed[k];
    }
  }

  /** A soquet that is no longer available, after the consumed ones were removed, cannot be
      used next. */
  lemma NotLinear(p: seq<Soquet>, soq: Soquet, avail0: set<Soquet>)
    requires soq !in avail0 - SoqSet(p)
    ensures !Linear(p + [soq], avail0)
  {
    if soq in avail0 {
      var k :| 0 <= k < |p| && p[k] == soq;
      assert (p + [soq])[k] == (p + [soq])[|p|];
    } else {
      assert (p + [soq])[|p|] == soq;
    }
  }

  /** Meeting an unavailable soquet at wire w of register k means the inputs are refused. */
  lemma {:induction false} UnavailableRefuses(regs: seq<Register>, inSoqs: map<string, seq<Soquet>>,
                                              avail0: set<Soquet>, k: nat, w: nat)
    requires k < |regs| && Fits(regs[..k], inSoqs)
    requires regs[k].name in inSoqs && w < |inSoqs[regs[k].name]|
    requires |inSoqs[regs[k].name]| == |Ndindex(regs[k].wireshape)|
    requires var soqs := inSoqs[regs[k].name];
      soqs[w] !in avail0 - SoqSet(Feed(regs[..k], inSoqs) + soqs[..w])
    ensures !(Fits(regs, inSoqs) && Linear(Feed(regs, inSoqs), avail0))
  {
    var soqs := inSoqs[regs[k].name];
    var p := Feed(regs[..k], inSoqs) + soqs[..w];
    NotLinear(p, soqs[w], avail0);
    if Fits(regs, inSoqs) {
      FeedPrefix(regs, inSoqs, k + 1);
      PrefixFits(regs, inSoqs, k);
      var f1 := Feed(regs[..k + 1], inSoqs);
      assert p + [soqs[w]] == f1[..|p| + 1] by {
        assert soqs[..w + 1] == soqs[..w] + [soqs[w]];
      }
      LinearPrefix(Feed(regs, inSoqs), p + [soqs[w]], avail0);
    }
  }
}
