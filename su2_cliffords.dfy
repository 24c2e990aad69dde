/**
 * `generate_cliffords` of qualtran/rotation_synthesis/matrix/su2_ct.py: a depth-first search
 * from the scaled identity that multiplies by the scaled S and H gates on the right and keeps a
 * product only when neither it nor its negation has been seen. The search fails (its
 * assertions) unless it finds exactly 24 matrices.
 */
module SU2Cliffords {
  import opened Wrappers
  import Z2 = ZSqrt2Ring
  import W = ZOmegaRing
  import opened SU2CliffordT
  import G = SU2Gates

  /** `-m`. */
  function NegM(m: Mat): Mat { Negate(SU2(m, None)).m }

  lemma NegMInvolution(m: Mat)
    ensures NegM(NegM(m)) == m
  {}

  /** Neither equal nor opposite: the test `not any(u in seen for u in [nc, -nc])`. */
  predicate Apart(x: Mat, y: Mat) { x != y && x != NegM(y) && y != NegM(x) }

  /** The matrices of a list. */
  function Mats(xs: seq<SU2>): set<Mat> { set i | 0 <= i < |xs| :: xs[i].m }

  /** Any two entries of the list are apart. */
  predicate DistinctUpToSign(xs: seq<SU2>) {
    forall i, j | 0 <= i < j < |xs| :: Apart(xs[i].m, xs[j].m)
  }

  /** Every entry of one list is apart from every entry of the other. */
  predicate Across(xs: seq<SU2>, ys: seq<SU2>) {
    forall i, j | 0 <= i < |xs| && 0 <= j < |ys| :: Apart(xs[i].m, ys[j].m)
  }

  /** c @ p exists and it or its negation is among `seen`. */
  predicate Covered(c: SU2, p: SU2, seen: set<Mat>, mul: (SU2, SU2) -> Option<SU2>) {
    mul(c, p).Some? && (mul(c, p).value.m in seen || NegM(mul(c, p).value.m) in seen)
  }

  /** Every product of one of the first n entries by a generator is covered. */
  predicate CoveredAll(xs: seq<SU2>, n: nat, gens: seq<SU2>, seen: set<Mat>, mul: (SU2, SU2) -> Option<SU2>)
    requires n <= |xs|
  {
    forall k, j | 0 <= k < n && 0 <= j < |gens| :: Covered(xs[k], gens[j], seen, mul)
  }

  /** The products of c by the first k generators are covered. */
  predicate CoveredUpTo(c: SU2, gens: seq<SU2>, k: nat, seen: set<Mat>, mul: (SU2, SU2) -> Option<SU2>)
    requires k <= |gens|
  {
    forall j | 0 <= j < k :: Covered(c, gens[j], seen, mul)
  }

  predicate AllHold(xs: seq<SU2>, found: SU2 -> bool) { forall k | 0 <= k < |xs| :: found(xs[k]) }

  /** Multiplying by a generator keeps `found` and never fails. */
  ghost predicate ClosedUnder(gens: seq<SU2>, mul: (SU2, SU2) -> Option<SU2>, found: SU2 -> bool) {
    forall c, j | 0 <= j < |gens| && found(c) :: mul(c, gens[j]).Some? && found(mul(c, gens[j]).value)
  }

  /**
   * The loop of `generate_cliffords()`: a depth-first search from `start` multiplying by each
   * generator on the right, keeping a product only when neither it nor its negation was seen.
   * None when more than `bound` entries are found (the source's `assert len(ret) <= 24`).
   * Otherwise the entries hold `found`, no two are equal or opposite, the start is one of them,
   * and every product of an entry by a generator is an entry up to sign.
   */
  method Search(start: SU2, gens: seq<SU2>, mul: (SU2, SU2) -> Option<SU2>, found: SU2 -> bool, bound: nat)
    returns (r: Option<seq<SU2>>)
    requires found(start) && ClosedUnder(gens, mul, found)
    ensures r.Some? ==> |r.value| <= bound && start.m in Mats(r.value)
    ensures r.Some? ==> AllHold(r.value, found) && DistinctUpToSign(r.value)
    ensures r.Some? ==> CoveredAll(r.value, |r.value|, gens, Mats(r.value), mul)
  {
    var ret: seq<SU2> := [];
    var st := [start];
    var seen := {start.m};
    assert Mats(st) == seen by {
      assert st[0] == start;
    }
    while |st| > 0
      invariant |ret| <= bound
      invariant seen == Mats(ret) + Mats(st) && start.m in seen
      invariant AllHold(ret, found) && AllHold(st, found)
      invariant DistinctUpToSign(ret) && DistinctUpToSign(st) && Across(ret, st)
      invariant CoveredAll(ret, |ret|, gens, seen, mul)
      decreases bound - |ret|
    {
      var c := st[|st| - 1];
      PopStep(ret, st, seen, found);
      PopCovered(ret, c, gens, seen, mul);
      st := st[..|st| - 1];
      ret := ret + [c];
      if |ret| > bound {
        return None;
      }
      for k := 0 to |gens|
        invariant seen == Mats(ret) + Mats(st) && start.m in seen
        invariant AllHold(ret, found) && AllHold(st, found)
        invariant DistinctUpToSign(ret) && DistinctUpToSign(st) && Across(ret, st)
        invariant CoveredAll(ret, |ret| - 1, gens, seen, mul)
        invariant CoveredUpTo(c, gens, k, seen, mul)
        invariant c == ret[|ret| - 1] && found(c)
      {
        var nc := mul(c, gens[k]).value;
        ghost var seen1 := seen;
        if !(nc.m in seen || NegM(nc.m) in seen) {
          PushStep(ret, st, seen, nc, found);
          st := st + [nc];
          seen := seen + {nc.m};
          CoveredGrows(ret, c, gens, k, seen1, seen, mul);
        } else {
          CoveredNext(c, gens, k, seen, mul);
        }
      }
      CoveredLast(ret, gens, seen, mul);
    }
    assert Mats(st) == {};
    assert seen == Mats(ret);
    r := Some(ret);
  }

  /** Popping the last entry of the stack onto the result keeps the invariants on the lists. */
  lemma PopStep(ret: seq<SU2>, st: seq<SU2>, seen: set<Mat>, found: SU2 -> bool)
    requires |st| > 0
    requires seen == Mats(ret) + Mats(st)
    requires AllHold(ret, found) && AllHold(st, found)
    requires DistinctUpToSign(ret) && DistinctUpToSign(st) && Across(ret, st)
    ensures var c, st' := st[|st| - 1], st[..|st| - 1];
      seen == Mats(ret + [c]) + Mats(st') && AllHold(ret + [c], found) && AllHold(st', found)
      && DistinctUpToSign(ret + [c]) && DistinctUpToSign(st') && Across(ret + [c], st')
  {
    PopMats(ret, st);
  }

  lemma PopMats(ret: seq<SU2>, st: seq<SU2>)
    requires |st| > 0
    ensures Mats(ret + [st[|st| - 1]]) + Mats(st[..|st| - 1]) == Mats(ret) + Mats(st)
  {
    var c, st' := st[|st| - 1], st[..|st| - 1];
    assert Mats(ret + [c]) == Mats(ret) + {c.m} by {
      assert forall k | 0 <= k < |ret| :: (ret + [c])[k] == ret[k];
      assert (ret + [c])[|ret|] == c;
    }
    assert Mats(st) == Mats(st') + {c.m} by {
      assert st == st' + [c];
      assert forall k | 0 <= k < |st'| :: st[k] == st'[k];
    }
  }

  lemma PopCovered(ret: seq<SU2>, c: SU2, gens: seq<SU2>, seen: set<Mat>, mul: (SU2, SU2) -> Option<SU2>)
    requires CoveredAll(ret, |ret|, gens, seen, mul)
    ensures CoveredAll(ret + [c], |ret|, gens, seen, mul)
  {
    assert forall k | 0 <= k < |ret| :: (ret + [c])[k] == ret[k];
  }

  /** Pushing a product apart from everything seen keeps the invariants on the lists. */
  lemma PushStep(ret: seq<SU2>, st: seq<SU2>, seen: set<Mat>, nc: SU2, found: SU2 -> bool)
    requires seen == Mats(ret) + Mats(st)
    requires AllHold(st, found) && found(nc)
    requires DistinctUpToSign(st) && Across(ret, st)
    requires !(nc.m in seen || NegM(nc.m) in seen)
    ensures seen + {nc.m} == Mats(ret) + Mats(st + [nc])
    ensures AllHold(st + [nc], found) && DistinctUpToSign(st + [nc]) && Across(ret, st + [nc])
  {
    assert Mats(st + [nc]) == Mats(st) + {nc.m} by {
      assert forall k | 0 <= k < |st| :: (st + [nc])[k] == st[k];
      assert (st + [nc])[|st|] == nc;
    }
    forall m | m in seen
      ensures Apart(m, nc.m)
    {
      NegMInvolution(m);
    }
    assert forall j | 0 <= j < |st| :: st[j].m in Mats(st);
    assert forall j | 0 <= j < |ret| :: ret[j].m in Mats(ret);
  }

  /** After a product is pushed, what was covered stays covered, and the product is covered. */
  lemma CoveredGrows(ret: seq<SU2>, c: SU2, gens: seq<SU2>, k: nat, seen1: set<Mat>, seen2: set<Mat>,
                     mul: (SU2, SU2) -> Option<SU2>)
    requires 0 < |ret| && k < |gens| && seen1 <= seen2
    requires CoveredAll(ret, |ret| - 1, gens, seen1, mul)
    requires CoveredUpTo(c, gens, k, seen1, mul)
    requires mul(c, gens[k]).Some? && mul(c, gens[k]).value.m in seen2
    ensures CoveredAll(ret, |ret| - 1, gens, seen2, mul)
    ensures CoveredUpTo(c, gens, k + 1, seen2, mul)
  {}

  lemma CoveredNext(c: SU2, gens: seq<SU2>, k: nat, seen: set<Mat>, mul: (SU2, SU2) -> Option<SU2>)
    requires k < |gens| && CoveredUpTo(c, gens, k, seen, mul) && Covered(c, gens[k], seen, mul)
    ensures CoveredUpTo(c, gens, k + 1, seen, mul)
  {}

  /** Once every generator is handled for the last entry, every entry is covered. */
  lemma CoveredLast(ret: seq<SU2>, gens: seq<SU2>, seen: set<Mat>, mul: (SU2, SU2) -> Option<SU2>)
    requires 0 < |ret|
    requires CoveredAll(ret, |ret| - 1, gens, seen, mul)
    requires CoveredUpTo(ret[|ret| - 1], gens, |gens|, seen, mul)
    ensures CoveredAll(ret, |ret|, gens, seen, mul)
  {}

  /** A list whose entries are apart has as many matrices as entries. */
  lemma {:induction false} DistinctCard(xs: seq<SU2>)
    requires DistinctUpToSign(xs)
    ensures |Mats(xs)| == |xs|
  {
    if |xs| > 0 {
      var p, c := xs[..|xs| - 1], xs[|xs| - 1];
      assert DistinctUpToSign(p);
      DistinctCard(p);
      assert Mats(xs) == Mats(p) + {c.m} by {
        assert xs == p + [c];
        assert forall k | 0 <= k < |p| :: xs[k] == p[k];
      }
      assert c.m !in Mats(p);
    } else {
      assert Mats(xs) == {};
    }
  }

  // ---------------------------------------------------------------------------------
  // The dictionary of the search

  /**
   * The dictionary `{v: v.gates for v in ret}`: keys compare by matrix, so it maps each matrix
   * found to the gates it records.
   */
  function AsDict(xs: seq<SU2>): map<Mat, Option<seq<string>>>
    requires DistinctUpToSign(xs)
  {
    map k | 0 <= k < |xs| :: xs[k].m := xs[k].gates
  }

  /** Every key of the dictionary is the matrix of an entry recording the key's value. */
  lemma DictEntry(xs: seq<SU2>, m: Mat) returns (k: nat)
    requires DistinctUpToSign(xs) && m in AsDict(xs)
    ensures k < |xs| && xs[k] == SU2(m, AsDict(xs)[m])
  {
    k :| 0 <= k < |xs| && xs[k].m == m;
  }

  lemma DictKeys(xs: seq<SU2>)
    requires DistinctUpToSign(xs)
    ensures AsDict(xs).Keys == Mats(xs) && |AsDict(xs)| == |xs|
  {
    DistinctCard(xs);
    assert AsDict(xs).Keys == Mats(xs);
  }

  lemma DictFound(xs: seq<SU2>, found: SU2 -> bool)
    requires DistinctUpToSign(xs) && AllHold(xs, found)
    ensures forall m | m in AsDict(xs) :: found(SU2(m, AsDict(xs)[m]))
  {
    forall m | m in AsDict(xs)
      ensures found(SU2(m, AsDict(xs)[m]))
    {
      var k := DictEntry(xs, m);
    }
  }

  lemma DictApart(xs: seq<SU2>)
    requires DistinctUpToSign(xs)
    ensures forall m, n | m in AsDict(xs) && n in AsDict(xs) && m != n :: m != NegM(n)
  {
    forall m, n | m in AsDict(xs) && n in AsDict(xs) && m != n
      ensures m != NegM(n)
    {
      var k := DictEntry(xs, m);
      var l := DictEntry(xs, n);
      if k < l {
        assert Apart(xs[k].m, xs[l].m);
      } else {
        assert Apart(xs[l].m, xs[k].m);
      }
    }
  }

  lemma DictCovered(xs: seq<SU2>, gens: seq<SU2>, mul: (SU2, SU2) -> Option<SU2>)
    requires DistinctUpToSign(xs) && CoveredAll(xs, |xs|, gens, Mats(xs), mul)
    ensures forall m, j | m in AsDict(xs) && 0 <= j < |gens| :: Covered(SU2(m, AsDict(xs)[m]), gens[j], AsDict(xs).Keys, mul)
  {
    DictKeys(xs);
    forall m, j | m in AsDict(xs) && 0 <= j < |gens|
      ensures Covered(SU2(m, AsDict(xs)[m]), gens[j], AsDict(xs).Keys, mul)
    {
      var k := DictEntry(xs, m);
    }
  }

  /** Every entry of the dictionary, as a matrix with its gates, holds `found`. */
  predicate KeysHold(d: map<Mat, Option<seq<string>>>, found: SU2 -> bool) {
    forall m | m in d :: found(SU2(m, d[m]))
  }

  /** No key of the dictionary is the negation of another. */
  predicate KeysApart(d: map<Mat, Option<seq<string>>>) {
    forall m, n | m in d && n in d && m != n :: m != NegM(n)
  }

  /** Every entry times every generator is a key up to sign. */
  predicate KeysCovered(d: map<Mat, Option<seq<string>>>, gens: seq<SU2>, mul: (SU2, SU2) -> Option<SU2>) {
    forall m, j | m in d && 0 <= j < |gens| :: Covered(SU2(m, d[m]), gens[j], d.Keys, mul)
  }

  /**
   * `generate_cliffords()`, over the generators and the product given. None where one of its
   * assertions fails (more or fewer than 24 entries). Otherwise the dictionary has 24 keys,
   * the start among them; every key holds `found`; two different keys are never opposite; and
   * every key times a generator is a key up to sign.
   */
  method GenerateCliffords(start: SU2, gens: seq<SU2>, mul: (SU2, SU2) -> Option<SU2>, found: SU2 -> bool)
    returns (r: Option<map<Mat, Option<seq<string>>>>)
    requires found(start) && ClosedUnder(gens, mul, found)
    ensures r.Some? ==> |r.value| == 24 && start.m in r.value
    ensures r.Some? ==> KeysHold(r.value, found) && KeysApart(r.value) && KeysCovered(r.value, gens, mul)
  {
    var ret := Search(start, gens, mul, found, 24);
    if ret.None? || |ret.value| != 24 {
      return None;
    }
    var xs := ret.value;
    DictKeys(xs);
    DictFound(xs, found);
    DictApart(xs);
    DictCovered(xs, gens, mul);
    r := Some(AsDict(xs));
  }

  // ---------------------------------------------------------------------------------
  // The Clifford instance

  predicate IsSH(name: string) { name == "S" || name == "H" }

  /** A word in S and H. */
  predicate SHWord(w: seq<string>) { forall k | 0 <= k < |w| :: IsSH(w[k]) }

  lemma EmptySHWord(w: seq<string>)
    requires w == []
    ensures SHWord(w)
  {}

  lemma ExtendSHWord(name: string, w: seq<string>)
    requires IsSH(name) && SHWord(w)
    ensures SHWord([name] + w)
  {
    var nw := [name] + w;
    forall j | 0 <= j < |nw|
      ensures IsSH(nw[j])
    {
      if j > 0 {
        assert nw[j] == w[j - 1];
      }
    }
  }

  lemma WordOfEmpty(c: SU2)
    requires c.gates == Some([])
    ensures c.gates.Some? && SHWord(c.gates.value)
  {
    EmptySHWord(c.gates.value);
  }

  /** The gates of `c @ p`, for p recording one S or H, are again a word in S and H. */
  lemma WordOfProduct(c: SU2, p: SU2, r: SU2, name: string)
    requires c.gates.Some? && SHWord(c.gates.value) && IsSH(name)
    requires p.gates == Some([name]) && r.gates == JoinGates(p.gates, c.gates)
    ensures r.gates.Some? && SHWord(r.gates.value)
  {
    ExtendSHWord(name, c.gates.value);
  }

  /** A Clifford of the search, of determinant 2, recording a word in S and H. */
  predicate Found(c: SU2) {
    CliffordMatrix(c) && c.gates.Some? && SHWord(c.gates.value)
  }

  /** Admissible and of determinant 2. */
  predicate CliffordMatrix(c: SU2) {
    Admissible(c.m) && Det(c) == Some(Z2.ZSqrt2(2, 0))
  }

  lemma ProductMatrix(c: SU2, p: SU2)
    requires CliffordMatrix(c) && CliffordMatrix(p)
    ensures MatMul(c, p).Some? && CliffordMatrix(MatMul(c, p).value)
  {
    G.DetProductTwo(c, p);
  }

  lemma EntryMatrix(c: SU2, word: Option<seq<string>>)
    requires G.CliffordEntry(c, word)
    ensures CliffordMatrix(c) && c.gates == word
  {}

  /** `c @ p`. */
  function Product(c: SU2, p: SU2): Option<SU2> { MatMul(c, p) }

  /** A product by S or H of a Clifford of the search is one. */
  lemma ExtendFound(c: SU2, p: SU2, name: string)
    requires Found(c) && IsSH(name) && G.CliffordEntry(p, Some([name]))
    ensures Product(c, p).Some? && Found(Product(c, p).value)
  {
    EntryMatrix(p, Some([name]));
    ProductMatrix(c, p);
    WordOfProduct(c, p, MatMul(c, p).value, name);
  }

  /** Multiplying by the scaled S or H keeps a Clifford of the search one. */
  lemma GeneratorsClosed(gens: seq<SU2>)
    requires |gens| == 2 && G.CliffordEntry(gens[0], Some(["S"])) && G.CliffordEntry(gens[1], Some(["H"]))
    ensures ClosedUnder(gens, Product, Found)
  {
    forall c, j | 0 <= j < |gens| && Found(c)
      ensures Product(c, gens[j]).Some? && Found(Product(c, gens[j]).value)
    {
      ExtendBy(c, gens, j);
    }
  }

  lemma ExtendBy(c: SU2, gens: seq<SU2>, j: nat)
    requires |gens| == 2 && j < 2 && Found(c)
    requires G.CliffordEntry(gens[0], Some(["S"])) && G.CliffordEntry(gens[1], Some(["H"]))
    ensures Product(c, gens[j]).Some? && Found(Product(c, gens[j]).value)
  {
    if j == 0 {
      ExtendFound(c, gens[0], "S");
    } else {
      ExtendFound(c, gens[1], "H");
    }
  }

  /** The scaled identity, recording no gates, is a Clifford of the search. */
  lemma StartFound(i: SU2)
    requires G.CliffordEntry(i, Some([]))
    ensures Found(i)
  {
    EntryMatrix(i, Some([]));
    WordOfEmpty(i);
  }

  /**
   * The search of `generate_cliffords()` may start from the identity of a well-formed table,
   * such as `GATE_MAP`, and multiply by its S and H: the preconditions of GenerateCliffords hold.
   */
  lemma TableSearch(t: G.GateTable)
    requires G.WellFormedTable(t)
    ensures Found(t.i) && ClosedUnder([t.s, t.h], Product, Found)
  {
    SearchPreconditions(t.i, [t.s, t.h]);
  }

  lemma GateMapSearch()
    ensures Found(G.GateMap().i) && ClosedUnder([G.GateMap().s, G.GateMap().h], Product, Found)
  {
    G.GateMapWellFormed();
    TableSearch(G.GateMap());
  }

  /** The preconditions of GenerateCliffords, for any identity, S and H entries of a table. */
  lemma SearchPreconditions(i: SU2, gens: seq<SU2>)
    requires G.CliffordEntry(i, Some([]))
    requires |gens| == 2 && G.CliffordEntry(gens[0], Some(["S"])) && G.CliffordEntry(gens[1], Some(["H"]))
    ensures Found(i) && ClosedUnder(gens, Product, Found)
  {
    StartFound(i);
    GeneratorsClosed(gens);
  }
}
