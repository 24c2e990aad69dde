// Resource counting: the bloq call graph (qualtran/resource_counting/_call_graph.py).
//
// Bloqs are values of an arbitrary type B.  A bloq's own `build_call_graph` is an oracle
// `callees`, which returns the raw (callee, multiplicity) list or a decomposition error;
// a generalizer maps a bloq to its generalized form or to None (drop it).

module CallGraph {
  import opened Wrappers
  import PyStr

  /** The two decomposition failures that `get_bloq_callee_counts` may swallow. */
  datatype DecomposeError = DecomposeNotImplemented | DecomposeTypeError

  /** Failures of `get_bloq_call_graph`: the root generalizes to None (a ValueError in the
      source), or the graph has a cycle, which the topological sort refuses. */
  datatype CallGraphError = RootGeneralizedAway | CallCycle

  predicate Distinct<T(==)>(s: seq<T>) {
    forall i, j :: 0 <= i < j < |s| ==> s[i] != s[j]
  }

  // ---------------------------------------------------------------------------------
  // Symbol names of `SympySymbolAllocator`

  predicate IsDigits(s: string) {
    forall i :: 0 <= i < |s| ==> PyStr.IsDigit(s[i])
  }

  /** The name `new_symbol` builds as written: '_' + prefix + str(index). */
  function SymbolNameAsWritten(prefix: string, idx: nat): string {
    "_" + prefix + PyStr.Decimal(idx)
  }

  /** Two different (prefix, index) pairs give the same name: the eleventh symbol for
      prefix "a" collides with the first symbol for prefix "a1". */
  lemma AsWrittenNamesCollide()
    ensures "a1" != "a"
    ensures SymbolNameAsWritten("a1", 0) == SymbolNameAsWritten("a", 10)
  {
    assert PyStr.Decimal(10) == PyStr.Decimal(1) + [PyStr.Digit(0)];
  }

  /** Names with a separator before the counter: '_' + prefix + '_' + str(index). */
  function SymbolName(prefix: string, idx: nat): string {
    "_" + prefix + "_" + PyStr.Decimal(idx)
  }

  /** Number of digit characters at the end of s. */
  function TrailingDigits(s: string): (k: nat)
    ensures k <= |s|
  {
    if s == [] || !('0' <= s[|s| - 1] <= '9') then 0 else 1 + TrailingDigits(s[..|s| - 1])
  }

  lemma {:induction false} TrailingDigitsAfterSeparator(x: string, d: string)
    requires IsDigits(d)
    ensures TrailingDigits(x + "_" + d) == |d|
  {
    var s := x + "_" + d;
    if d != [] {
      var d' := d[..|d| - 1];
      assert s[..|s| - 1] == x + "_" + d';
      TrailingDigitsAfterSeparator(x, d');
    } else {
      assert s[|s| - 1] == '_';
    }
  }

  /** With the separator, a name determines its prefix and its counter. */
  lemma SymbolNameInjective(p1: string, i1: nat, p2: string, i2: nat)
    requires SymbolName(p1, i1) == SymbolName(p2, i2)
    ensures p1 == p2 && i1 == i2
  {
    var s := SymbolName(p1, i1);
    var d1, d2 := PyStr.Decimal(i1), PyStr.Decimal(i2);
    TrailingDigitsAfterSeparator("_" + p1, d1);
    TrailingDigitsAfterSeparator("_" + p2, d2);
    assert |d1| == |d2|;
    assert d1 == s[|s| - |d1|..] == d2;
    assert p1 == s[1..|s| - |d1| - 1] == p2;
    PyStr.DecimalInjective(i1, i2);
  }

  /** For one prefix, the names as written determine the counter. */
  lemma SymbolNameAsWrittenInjective(prefix: string, i: nat, j: nat)
    requires SymbolNameAsWritten(prefix, i) == SymbolNameAsWritten(prefix, j)
    ensures i == j
  {
    var n := |"_" + prefix|;
    assert PyStr.Decimal(i) == SymbolNameAsWritten(prefix, i)[n..];
    assert PyStr.Decimal(j) == SymbolNameAsWritten(prefix, j)[n..];
    PyStr.DecimalInjective(i, j);
  }

  /** `SympySymbolAllocator`: one counter per prefix, missing prefixes counting as 0. */
  class SymbolAllocator {
    var idxs: map<string, nat>
    /** Every (prefix, name) pair handed out so far. */
    ghost var issued: set<(string, string)>

    ghost predicate Valid()
      reads this
    {
      forall q | q in issued :: q.0 in idxs && exists i: nat :: i < idxs[q.0] && q.1 == SymbolNameAsWritten(q.0, i)
    }

    function Count(prefix: string): nat
      reads this
    {
      if prefix in idxs then idxs[prefix] else 0
    }

    constructor ()
      ensures Valid() && idxs == map[] && issued == {}
    {
      idxs := map[];
      issued := {};
    }

    /** `new_symbol`: the name '_' + prefix + str(counter), after which the counter rises by
        one; the name was never handed out before for this prefix. */
    method NewSymbol(prefix: string) returns (s: string)
      requires Valid()
      modifies this
      ensures Valid()
      ensures s == SymbolNameAsWritten(prefix, old(Count(prefix)))
      ensures idxs == old(idxs)[prefix := old(Count(prefix)) + 1]
      ensures (prefix, s) !in old(issued) && issued == old(issued) + {(prefix, s)}
    {
      var i := Count(prefix);
      s := SymbolNameAsWritten(prefix, i);
      if (prefix, s) in issued {
        var j: nat :| j < idxs[prefix] && s == SymbolNameAsWritten(prefix, j);
        SymbolNameAsWrittenInjective(prefix, i, j);
        assert false;
      }
      idxs := idxs[prefix := i + 1];
      issued := issued + {(prefix, s)};
      forall q | q in issued
        ensures q.0 in idxs && exists j: nat :: j < idxs[q.0] && q.1 == SymbolNameAsWritten(q.0, j)
      {
        if q == (prefix, s) {
          assert i < idxs[prefix] && q.1 == SymbolNameAsWritten(prefix, i);
        } else {
          var j: nat :| j < old(idxs)[q.0] && q.1 == SymbolNameAsWritten(q.0, j);
          assert j < idxs[q.0];
        }
      }
    }
  }

  // ---------------------------------------------------------------------------------
  // `build_cbloq_call_graph`

  /** Sum of the values of a map. */
  ghost function Total<K>(m: map<K, int>): int
    decreases |m|
  {
    if m == map[] then 0 else var k :| k in m; m[k] + Total(m - {k})
  }

  lemma {:induction false} TotalRemove<K>(m: map<K, int>, k: K)
    requires k in m
    ensures Total(m) == m[k] + Total(m - {k})
    decreases |m|
  {
    var j :| j in m && Total(m) == m[j] + Total(m - {j});
    if j != k {
      TotalRemove(m - {j}, k);
      TotalRemove(m - {k}, j);
      assert m - {j} - {k} == m - {k} - {j};
    }
  }

  lemma TotalUpdate<K>(m: map<K, int>, k: K, v: int)
    ensures Total(m[k := v]) == v + Total(m - {k})
    ensures k in m ==> Total(m[k := v]) == Total(m) - m[k] + v
  {
    TotalRemove(m[k := v], k);
    assert m[k := v] - {k} == m - {k};
    if k in m {
      TotalRemove(m, k);
    }
  }

  /** `build_cbloq_call_graph`: one count per instance; `instances` lists the bloq of each
      instance of the composite bloq.  The map is the multiset of those bloqs and its
      counts add up to the number of instances. */
  method BuildCbloqCallGraph<B>(instances: seq<B>) returns (counts: map<B, int>)
    ensures forall b :: b in counts <==> b in instances
    ensures forall b | b in counts :: counts[b] == multiset(instances)[b]
    ensures Total(counts) == |instances|
  {
    counts := map[];
    for i := 0 to |instances|
      invariant forall b :: b in counts <==> b in instances[..i]
      invariant forall b | b in counts :: counts[b] == multiset(instances[..i])[b]
      invariant Total(counts) == i
    {
      var b := instances[i];
      assert instances[..i + 1] == instances[..i] + [b];
      var old_count := if b in counts then counts[b] else 0;
      TotalUpdate(counts, b, old_count + 1);
      if b !in counts {
        assert counts - {b} == counts;
      }
      counts := counts[b := old_count + 1];
    }
    assert instances[..|instances|] == instances;
  }

  // ---------------------------------------------------------------------------------
  // `_generalize_callees`

  function KeysOf<B>(pairs: seq<(B, int)>): (ks: seq<B>)
    ensures |ks| == |pairs| && forall i :: 0 <= i < |pairs| ==> ks[i] == pairs[i].0
  {
    if pairs == [] then [] else KeysOf(pairs[..|pairs| - 1]) + [pairs[|pairs| - 1].0]
  }

  /** The position of the entry for g, or -1 when there is none. */
  function FindKey<B(==)>(acc: seq<(B, int)>, g: B): (j: int)
    ensures -1 <= j < |acc|
    ensures j >= 0 ==> acc[j].0 == g
    ensures j < 0 ==> g !in KeysOf(acc)
  {
    if acc == [] then -1
    else if acc[|acc| - 1].0 == g then |acc| - 1
    else FindKey(acc[..|acc| - 1], g)
  }

  /** Add n to the entry for g, appending a new entry (g, n) at the end when g has none:
      a defaultdict in insertion order. */
  function Merge<B(==)>(acc: seq<(B, int)>, g: B, n: int): seq<(B, int)> {
    var j := FindKey(acc, g);
    if j >= 0 then acc[j := (g, acc[j].1 + n)] else acc + [(g, n)]
  }

  /** The merged callee list, entry by entry over the raw list; callees generalizing to
      None are skipped. */
  function Generalized<B(==)>(raw: seq<(B, int)>, gen: B -> Option<B>): seq<(B, int)> {
    if raw == [] then []
    else
      var prev := Generalized(raw[..|raw| - 1], gen);
      match gen(raw[|raw| - 1].0)
      case None => prev
      case Some(g) => Merge(prev, g, raw[|raw| - 1].1)
  }

  /** Reference total: the multiplicities of every raw entry that generalizes to g. */
  function RawWeight<B(==)>(raw: seq<(B, int)>, gen: B -> Option<B>, g: B): int {
    if raw == [] then 0
    else
      RawWeight(raw[..|raw| - 1], gen, g)
      + (if gen(raw[|raw| - 1].0) == Some(g) then raw[|raw| - 1].1 else 0)
  }

  /** The value listed for g (the sum of the entries for g, 0 when there is none). */
  function Weight<B(==)>(pairs: seq<(B, int)>, g: B): int {
    if pairs == [] then 0
    else Weight(pairs[..|pairs| - 1], g) + (if pairs[|pairs| - 1].0 == g then pairs[|pairs| - 1].1 else 0)
  }

  lemma {:induction false} WeightAbsent<B>(pairs: seq<(B, int)>, g: B)
    requires g !in KeysOf(pairs)
    ensures Weight(pairs, g) == 0
  {
    if pairs != [] {
      assert KeysOf(pairs[..|pairs| - 1]) == KeysOf(pairs)[..|pairs| - 1];
      WeightAbsent(pairs[..|pairs| - 1], g);
    }
  }

  lemma {:induction false} WeightAt<B>(pairs: seq<(B, int)>, j: nat)
    requires Distinct(KeysOf(pairs)) && j < |pairs|
    ensures Weight(pairs, pairs[j].0) == pairs[j].1
  {
    var last := |pairs| - 1;
    var init := pairs[..last];
    assert KeysOf(init) == KeysOf(pairs)[..last];
    if j < last {
      WeightAt(init, j);
    } else {
      assert pairs[j].0 !in KeysOf(init);
      WeightAbsent(init, pairs[j].0);
    }
  }

  lemma {:induction false} WeightReplace<B>(pairs: seq<(B, int)>, j: nat, v: int, h: B)
    requires j < |pairs|
    ensures Weight(pairs[j := (pairs[j].0, v)], h)
         == Weight(pairs, h) + (if pairs[j].0 == h then v - pairs[j].1 else 0)
  {
    var last := |pairs| - 1;
    var q := pairs[j := (pairs[j].0, v)];
    if j < last {
      assert q[..last] == pairs[..last][j := (pairs[j].0, v)];
      WeightReplace(pairs[..last], j, v, h);
    } else {
      assert q[..last] == pairs[..last];
    }
  }

  lemma MergeWeight<B>(acc: seq<(B, int)>, g: B, n: int, h: B)
    ensures Weight(Merge(acc, g, n), h) == Weight(acc, h) + (if g == h then n else 0)
  {
    var j := FindKey(acc, g);
    if j >= 0 {
      WeightReplace(acc, j, acc[j].1 + n, h);
    } else {
      var r := acc + [(g, n)];
      assert r[..|r| - 1] == acc;
    }
  }

  lemma MergeKeys<B>(acc: seq<(B, int)>, g: B, n: int)
    ensures KeysOf(Merge(acc, g, n)) == if g in KeysOf(acc) then KeysOf(acc) else KeysOf(acc) + [g]
  {
    var j := FindKey(acc, g);
    if j >= 0 {
      assert KeysOf(Merge(acc, g, n)) == KeysOf(acc);
    } else {
      assert KeysOf(Merge(acc, g, n)) == KeysOf(acc) + [g];
    }
  }

  /** The merged list holds each generalized callee at most once. */
  lemma {:induction false} GeneralizedDistinctKeys<B>(raw: seq<(B, int)>, gen: B -> Option<B>)
    ensures Distinct(KeysOf(Generalized(raw, gen)))
  {
    if raw != [] {
      var init := raw[..|raw| - 1];
      var prev := Generalized(init, gen);
      GeneralizedDistinctKeys(init, gen);
      if gen(raw[|raw| - 1].0).Some? {
        MergeKeys(prev, gen(raw[|raw| - 1].0).value, raw[|raw| - 1].1);
      }
    }
  }

  /** The merged list has an entry for g exactly when some raw callee generalizes to g. */
  lemma {:induction false} GeneralizedKeys<B>(raw: seq<(B, int)>, gen: B -> Option<B>, g: B)
    ensures g in KeysOf(Generalized(raw, gen))
        <==> exists i :: 0 <= i < |raw| && gen(raw[i].0) == Some(g)
  {
    if raw != [] {
      var init := raw[..|raw| - 1];
      var prev := Generalized(init, gen);
      GeneralizedKeys(init, gen, g);
      assert forall i :: 0 <= i < |init| ==> init[i] == raw[i];
      if gen(raw[|raw| - 1].0).Some? {
        MergeKeys(prev, gen(raw[|raw| - 1].0).value, raw[|raw| - 1].1);
      }
    }
  }

  /** The entry for g carries the summed multiplicities of the raw entries generalizing
      to g. */
  lemma {:induction false} GeneralizedWeight<B>(raw: seq<(B, int)>, gen: B -> Option<B>, g: B)
    ensures Weight(Generalized(raw, gen), g) == RawWeight(raw, gen, g)
  {
    if raw != [] {
      var init := raw[..|raw| - 1];
      var prev := Generalized(init, gen);
      GeneralizedWeight(init, gen, g);
      if gen(raw[|raw| - 1].0).Some? {
        MergeWeight(prev, gen(raw[|raw| - 1].0).value, raw[|raw| - 1].1, g);
      }
    }
  }

  /** A callee whose generalization is None contributes to no entry. */
  lemma DroppedCalleeCounts<B>(raw: seq<(B, int)>, gen: B -> Option<B>, c: B, n: int, g: B)
    requires gen(c) == None
    ensures Generalized(raw + [(c, n)], gen) == Generalized(raw, gen)
    ensures RawWeight(raw + [(c, n)], gen, g) == RawWeight(raw, gen, g)
  {
    var r := raw + [(c, n)];
    assert r[..|r| - 1] == raw;
  }

  /** The items of a dict with the given keys, in key order. */
  function Items<B>(keys: seq<B>, counts: map<B, int>): (r: seq<(B, int)>)
    requires forall b | b in keys :: b in counts
    ensures |r| == |keys|
    ensures forall j | 0 <= j < |keys| :: r[j] == (keys[j], counts[keys[j]])
  {
    seq(|keys|, j requires 0 <= j < |keys| => (keys[j], counts[keys[j]]))
  }

  /** Adding to the count of a key already present updates its item in place. */
  lemma ItemsBump<B>(keys: seq<B>, counts: map<B, int>, b: B, n: int)
    requires forall c | c in keys :: c in counts
    requires Distinct(keys) && b in keys
    ensures Items(keys, counts[b := counts[b] + n]) == Merge(Items(keys, counts), b, n)
  {
    var items := Items(keys, counts);
    assert KeysOf(items) == keys;
    var j := FindKey(items, b);
    assert keys[j] == b;
    assert forall k | 0 <= k < |keys| && keys[k] == b :: k == j;
  }

  /** Adding a new key appends its item. */
  lemma ItemsAppend<B>(keys: seq<B>, counts: map<B, int>, b: B, n: int)
    requires forall c | c in keys :: c in counts
    requires b !in keys
    ensures Items(keys + [b], counts[b := n]) == Merge(Items(keys, counts), b, n)
  {
    var items := Items(keys, counts);
    assert KeysOf(items) == keys;
    assert FindKey(items, b) == -1;
  }

  /** `_generalize_callees`: a defaultdict of counts filled in iteration order, returned as
      its list of items. */
  method GeneralizeCallees<B(==)>(raw: seq<(B, int)>, gen: B -> Option<B>) returns (r: seq<(B, int)>)
    ensures r == Generalized(raw, gen)
  {
    var keys: seq<B> := [];
    var counts: map<B, int> := map[];
    for i := 0 to |raw|
      invariant Distinct(keys)
      invariant forall b :: b in counts <==> b in keys
      invariant Generalized(raw[..i], gen) == Items(keys, counts)
    {
      assert raw[..i + 1][..i] == raw[..i];
      var (callee, n) := raw[i];
      var g := gen(callee);
      if g.None? {
        continue;
      }
      var b := g.value;
      if b in counts {
        ItemsBump(keys, counts, b, n);
        counts := counts[b := counts[b] + n];
      } else {
        ItemsAppend(keys, counts, b, n);
        keys := keys + [b];
        counts := counts[b := n];
      }
    }
    assert raw[..|raw|] == raw;
    r := Items(keys, counts);
  }

  // ---------------------------------------------------------------------------------
  // `get_bloq_callee_counts`

  /** The generalized callees of bloq, or the decomposition error; a failure is an empty
      list when ignoreFailure is set. */
  function CalleeCounts<B(==)>(bloq: B, gen: B -> Option<B>,
                               callees: B -> Result<seq<(B, int)>, DecomposeError>,
                               ignoreFailure: bool): (r: Result<seq<(B, int)>, DecomposeError>)
    ensures r.Err? <==> callees(bloq).Err? && !ignoreFailure
    ensures r.Err? ==> r.error == callees(bloq).error
    ensures callees(bloq).Err? && ignoreFailure ==> r == Ok([])
    ensures callees(bloq).Ok? ==> r == Ok(Generalized(callees(bloq).value, gen))
  {
    match callees(bloq)
    case Ok(raw) => Ok(Generalized(raw, gen))
    case Err(e) => if ignoreFailure then Ok([]) else Err(e)
  }

  /** `get_bloq_callee_counts`. */
  method GetBloqCalleeCounts<B(==)>(bloq: B, gen: B -> Option<B>,
                                    callees: B -> Result<seq<(B, int)>, DecomposeError>,
                                    ignoreFailure: bool)
    returns (r: Result<seq<(B, int)>, DecomposeError>)
    ensures r == CalleeCounts(bloq, gen, callees, ignoreFailure)
  {
    var raw := callees(bloq);
    if raw.Err? {
      if ignoreFailure {
        return Ok([]);
      }
      return Err(raw.error);
    }
    var merged := GeneralizeCallees(raw.value, gen);
    return Ok(merged);
  }

  /** The callee list `_build_call_graph` uses: decomposition failures are ignored. */
  function Expansion<B(==)>(bloq: B, gen: B -> Option<B>,
                            callees: B -> Result<seq<(B, int)>, DecomposeError>): seq<(B, int)>
  {
    CalleeCounts(bloq, gen, callees, true).value
  }

  /** Every callee in the expansion of a bloq in u is in u. */
  ghost predicate Closed<B(!new)>(u: set<B>, gen: B -> Option<B>,
                                     callees: B -> Result<seq<(B, int)>, DecomposeError>)
  {
    forall b, c | b in u && c in KeysOf(Expansion(b, gen, callees)) :: c in u
  }

  /** The callees of a bloq of a closed universe are in it. */
  lemma ExpansionInUniverse<B(!new)>(u: set<B>, gen: B -> Option<B>,
                                   callees: B -> Result<seq<(B, int)>, DecomposeError>, b: B)
    requires Closed(u, gen, callees) && b in u
    ensures forall j | 0 <= j < |Expansion(b, gen, callees)| :: Expansion(b, gen, callees)[j].0 in u
  {
    var cc := Expansion(b, gen, callees);
    forall j | 0 <= j < |cc| ensures cc[j].0 in u {
      assert cc[j].0 == KeysOf(cc)[j];
    }
  }

  // ---------------------------------------------------------------------------------
  // `_build_call_graph`

  /** d[k] += n on a defaultdict(int). */
  function Bump<B>(d: map<B, int>, k: B, n: int): (r: map<B, int>)
    ensures r.Keys == d.Keys + {k}
  {
    d[k := (if k in d then d[k] else 0) + n]
  }

  /** The edge counts out of a node whose callee list is cc, entered pair by pair. */
  function CountsMap<B>(cc: seq<(B, int)>): map<B, int> {
    if cc == [] then map[] else Bump(CountsMap(cc[..|cc| - 1]), cc[|cc| - 1].0, cc[|cc| - 1].1)
  }

  lemma CountsMapStep<B>(cc: seq<(B, int)>, i: nat)
    requires i < |cc|
    ensures CountsMap(cc[..i + 1]) == Bump(CountsMap(cc[..i]), cc[i].0, cc[i].1)
  {
    assert cc[..i + 1][..i] == cc[..i];
  }

  /** The edge counts have a key for every callee listed, holding the summed count listed
      for it. */
  lemma {:induction false} CountsMapWeight<B>(cc: seq<(B, int)>, k: B)
    ensures k in CountsMap(cc) <==> k in KeysOf(cc)
    ensures k in CountsMap(cc) ==> CountsMap(cc)[k] == Weight(cc, k)
  {
    if cc != [] {
      var init := cc[..|cc| - 1];
      CountsMapWeight(init, k);
      assert KeysOf(init) == KeysOf(cc)[..|cc| - 1];
      assert KeysOf(cc) == KeysOf(init) + [cc[|cc| - 1].0];
      if k !in KeysOf(init) {
        WeightAbsent(init, k);
      }
    }
  }

  /** Why a node gets no out-edges: keep holds, the depth bound is reached, or it has no
      callees. */
  ghost predicate IsLeaf<B>(u: B, depth: nat, gen: B -> Option<B>,
                                callees: B -> Result<seq<(B, int)>, DecomposeError>,
                                keep: B -> bool, maxDepth: Option<nat>)
  {
    keep(u) || (maxDepth.Some? && depth >= maxDepth.value) || Expansion(u, gen, callees) == []
  }

  /** Node u of the adjacency map adj, first reached at depth d[u], has the out-edges its
      expansion asks for, with their counts; a leaf has none. */
  ghost predicate Complete<B>(u: B, adj: map<B, map<B, int>>, d: map<B, nat>,
                                  gen: B -> Option<B>,
                                  callees: B -> Result<seq<(B, int)>, DecomposeError>,
                                  keep: B -> bool, maxDepth: Option<nat>)
  {
    && u in adj && u in d
    && adj[u] == if IsLeaf(u, d[u], gen, callees, keep, maxDepth) then map[]
                 else CountsMap(Expansion(u, gen, callees))
  }

  /** Completeness of u depends only on its own out-edges and depth. */
  lemma CompleteFrame<B>(u: B, a0: map<B, map<B, int>>, d0: map<B, nat>,
                             a1: map<B, map<B, int>>, d1: map<B, nat>,
                             gen: B -> Option<B>,
                             callees: B -> Result<seq<(B, int)>, DecomposeError>,
                             keep: B -> bool, maxDepth: Option<nat>)
    requires Complete(u, a0, d0, gen, callees, keep, maxDepth)
    requires u in a1 && a1[u] == a0[u] && u in d1 && d1[u] == d0[u]
    ensures Complete(u, a1, d1, gen, callees, keep, maxDepth)
  {
  }

  /** The graph (a1, d1) keeps every node of (a0, d0) with its out-edges and depth. */
  ghost predicate Grows<B>(a0: map<B, map<B, int>>, d0: map<B, nat>, a1: map<B, map<B, int>>, d1: map<B, nat>) {
    forall u | u in a0 :: u in a1 && a1[u] == a0[u] && u in d0 && u in d1 && d1[u] == d0[u]
  }

  lemma GrowsAt<B>(a0: map<B, map<B, int>>, d0: map<B, nat>, a1: map<B, map<B, int>>, d1: map<B, nat>, u: B)
    requires Grows(a0, d0, a1, d1) && u in a0
    ensures u in a1 && a1[u] == a0[u] && u in d0 && u in d1 && d1[u] == d0[u]
  {
  }

  /** Replacing the row of x again. */
  lemma GrowsRow<B>(a0: map<B, map<B, int>>, d0: map<B, nat>, a1: map<B, map<B, int>>, d1: map<B, nat>,
                    a2: map<B, map<B, int>>, d2: map<B, nat>, x: B)
    requires x in a1 && x in a2
    requires Grows(a0[x := a1[x]], d0, a1, d1) && Grows(a1[x := a2[x]], d1, a2, d2)
    ensures Grows(a0[x := a2[x]], d0, a2, d2)
  {
    forall u | u in a0[x := a2[x]]
      ensures u in a2 && a2[u] == a0[x := a2[x]][u] && u in d0 && u in d2 && d2[u] == d0[u]
    {
      if u != x {
        GrowsAt(a0[x := a1[x]], d0, a1, d1, u);
        GrowsAt(a1[x := a2[x]], d1, a2, d2, u);
      }
    }
  }

  /** Adding a new node keeps the graph. */
  lemma GrowsAdd<B>(a0: map<B, map<B, int>>, d0: map<B, nat>, x: B, dx: nat)
    requires d0.Keys == a0.Keys && x !in a0
    ensures Grows(a0, d0, a0[x := map[]], d0[x := dx])
  {
  }

  /** A node just added as a leaf is the only new node, and it is complete. */
  lemma LeafAdded<B>(a0: map<B, map<B, int>>, a: map<B, map<B, int>>, d: map<B, nat>, x: B,
                     gen: B -> Option<B>, callees: B -> Result<seq<(B, int)>, DecomposeError>,
                     keep: B -> bool, maxDepth: Option<nat>)
    requires a == a0[x := map[]] && x in d && IsLeaf(x, d[x], gen, callees, keep, maxDepth)
    ensures forall u {:trigger Complete(u, a, d, gen, callees, keep, maxDepth)} | u in a && u !in a0 ::
              Complete(u, a, d, gen, callees, keep, maxDepth)
  {
  }

  /** A complete node x, added to a0 to give a1, completes the nodes added after it. */
  lemma ExpandedAdded<B>(a0: map<B, map<B, int>>, a1: map<B, map<B, int>>, a: map<B, map<B, int>>,
                         d: map<B, nat>, x: B,
                         gen: B -> Option<B>, callees: B -> Result<seq<(B, int)>, DecomposeError>,
                         keep: B -> bool, maxDepth: Option<nat>)
    requires a1.Keys == a0.Keys + {x} && x in a && x in d
    requires Complete(x, a, d, gen, callees, keep, maxDepth)
    requires forall u {:trigger Complete(u, a, d, gen, callees, keep, maxDepth)} | u in a && u !in a1 ::
               Complete(u, a, d, gen, callees, keep, maxDepth)
    ensures forall u {:trigger Complete(u, a, d, gen, callees, keep, maxDepth)} | u in a && u !in a0 ::
              Complete(u, a, d, gen, callees, keep, maxDepth)
  {
    forall u | u in a && u !in a0 ensures Complete(u, a, d, gen, callees, keep, maxDepth) {
      if u != x {
        assert u !in a1;
      }
    }
  }

  /** Growth past a node x that (a0, d0) lacks, whose row alone was replaced. */
  lemma GrowsPast<B>(a0: map<B, map<B, int>>, d0: map<B, nat>, a1: map<B, map<B, int>>, d1: map<B, nat>,
                     a2: map<B, map<B, int>>, d2: map<B, nat>, x: B)
    requires Grows(a0, d0, a1, d1) && x !in a0 && x in a1 && x in a2
    requires Grows(a1[x := a2[x]], d1, a2, d2)
    ensures Grows(a0, d0, a2, d2)
  {
    forall u | u in a0 ensures u in a2 && a2[u] == a0[u] && u in d0 && u in d2 && d2[u] == d0[u] {
      assert u != x && u in a1[x := a2[x]];
    }
  }

  /** Growing and then replacing the row of a node x already present. */
  lemma GrowsBump<B>(a0: map<B, map<B, int>>, d0: map<B, nat>, a1: map<B, map<B, int>>, d1: map<B, nat>,
                     x: B, row: map<B, int>)
    requires Grows(a0, d0, a1, d1) && x in a0
    ensures Grows(a0[x := row], d0, a1[x := row], d1)
  {
  }

  /** Node u was first reached one level below a node p that has an edge to it. */
  ghost predicate Parented<B>(adj: map<B, map<B, int>>, d: map<B, nat>, u: B) {
    u in d && exists p :: p in adj && p in d && u in adj[p] && d[u] == d[p] + 1
  }

  /** Every node of adj outside s is parented. */
  ghost predicate ParentedOutside<B>(s: set<B>, adj: map<B, map<B, int>>, d: map<B, nat>) {
    forall u {:trigger Parented(adj, d, u)} | u in adj && u !in s :: Parented(adj, d, u)
  }

  lemma ParentedNone<B>(s: set<B>, adj: map<B, map<B, int>>, d: map<B, nat>)
    requires adj.Keys <= s
    ensures ParentedOutside(s, adj, d)
  {
  }

  /** Parent links survive growth in which only the row of x changes, and only gains keys. */
  lemma ParentedStep<B>(s: set<B>, a1: map<B, map<B, int>>, d1: map<B, nat>,
                        a2: map<B, map<B, int>>, d2: map<B, nat>, x: B)
    requires ParentedOutside(s, a1, d1) && ParentedOutside(a1.Keys, a2, d2)
    requires x in a1 && x in a2 && a1[x].Keys <= a2[x].Keys
    requires Grows(a1[x := a2[x]], d1, a2, d2)
    ensures ParentedOutside(s, a2, d2)
  {
    forall u | u in a2 && u !in s ensures Parented(a2, d2, u) {
      if u in a1 {
        assert Parented(a1, d1, u);
        var p :| p in a1 && p in d1 && u in a1[p] && d1[u] == d1[p] + 1;
        GrowsAt(a1[x := a2[x]], d1, a2, d2, u);
        GrowsAt(a1[x := a2[x]], d1, a2, d2, p);
        assert p in a2 && u in a2[p];
      }
    }
  }

  /** The edge added from x to a callee y one level below it parents y, if y is new. */
  lemma ParentedEdge<B>(s: set<B>, a2: map<B, map<B, int>>, d2: map<B, nat>, x: B, y: B, n: int)
    requires ParentedOutside(s + {y}, a2, d2)
    requires x in a2 && x in d2 && y in d2 && (y !in s ==> d2[y] == d2[x] + 1)
    ensures ParentedOutside(s, a2[x := Bump(a2[x], y, n)], d2)
  {
    var a3 := a2[x := Bump(a2[x], y, n)];
    forall u | u in a3 && u !in s ensures Parented(a3, d2, u) {
      if u == y {
        assert y in a3[x];
      } else {
        assert Parented(a2, d2, u);
        var p :| p in a2 && p in d2 && u in a2[p] && d2[u] == d2[p] + 1;
        assert u in a3[p];
      }
    }
  }

  /** A path of k edges of adj leads from root to u. */
  ghost predicate Reaches<B>(adj: map<B, map<B, int>>, root: B, u: B, k: nat)
    decreases k
  {
    if k == 0 then u == root else exists p :: p in adj && u in adj[p] && Reaches(adj, root, p, k - 1)
  }

  /** When the root has depth 0 and every other node is parented, the depth of each node
      is the length of a path to it from the root. */
  lemma {:induction false} DepthIsPathLength<B>(adj: map<B, map<B, int>>, d: map<B, nat>, root: B, u: B)
    requires root in d && d[root] == 0 && ParentedOutside({root}, adj, d)
    requires u in adj && u in d
    ensures Reaches(adj, root, u, d[u])
    decreases d[u]
  {
    if u != root {
      assert Parented(adj, d, u);
      var p :| p in adj && p in d && u in adj[p] && d[u] == d[p] + 1;
      DepthIsPathLength(adj, d, root, p);
    }
  }

  /** The graph (adj, d) that `_build_call_graph` leaves when started from root at depth
      0: every node is expanded as Complete says, and every other node was first reached
      one level below a node with an edge to it, so its depth is the length of a path to
      it from root. */
  ghost predicate BuiltFrom<B>(adj: map<B, map<B, int>>, d: map<B, nat>, root: B,
                               gen: B -> Option<B>,
                               callees: B -> Result<seq<(B, int)>, DecomposeError>,
                               keep: B -> bool, maxDepth: Option<nat>)
  {
    && root in adj && root in d && d[root] == 0
    && (forall u | u in adj :: Complete(u, adj, d, gen, callees, keep, maxDepth))
    && (forall u | u in adj && u != root :: Parented(adj, d, u))
    && (forall u | u in adj :: u in d && Reaches(adj, root, u, d[u]))
  }

  /** An expanded node has an edge to g exactly when one of its decomposition's callees
      generalizes to g, and the edge counts all such callees. */
  lemma CompleteEdges<B>(u: B, adj: map<B, map<B, int>>, d: map<B, nat>,
                             gen: B -> Option<B>,
                             callees: B -> Result<seq<(B, int)>, DecomposeError>,
                             keep: B -> bool, maxDepth: Option<nat>, g: B)
    requires Complete(u, adj, d, gen, callees, keep, maxDepth)
    requires !keep(u) && (maxDepth.Some? ==> d[u] < maxDepth.value) && callees(u).Ok?
    ensures g in adj[u] <==> exists i :: 0 <= i < |callees(u).value| && gen(callees(u).value[i].0) == Some(g)
    ensures g in adj[u] ==> adj[u][g] == RawWeight(callees(u).value, gen, g)
  {
    var raw := callees(u).value;
    var cc := Generalized(raw, gen);
    assert Expansion(u, gen, callees) == cc;
    CountsMapWeight(cc, g);
    GeneralizedKeys(raw, gen, g);
    GeneralizedWeight(raw, gen, g);
  }

  /** A node that cannot be decomposed, or is kept, or sits at the depth bound, has no
      out-edges. */
  lemma LeafEdges<B>(u: B, adj: map<B, map<B, int>>, d: map<B, nat>,
                         gen: B -> Option<B>,
                         callees: B -> Result<seq<(B, int)>, DecomposeError>,
                         keep: B -> bool, maxDepth: Option<nat>)
    requires Complete(u, adj, d, gen, callees, keep, maxDepth)
    requires keep(u) || (maxDepth.Some? && d[u] >= maxDepth.value) || callees(u).Err?
    ensures adj[u] == map[]
  {
  }

  lemma ProperSubsetMeasure<B>(u: set<B>, a: set<B>, b: set<B>, x: B)
    requires a <= b && x in b && x !in a && x in u
    ensures |u - b| < |u - a|
  {
    var d := (u - a) - (u - b);
    assert x in d;
    assert u - a == (u - b) + d;
    assert (u - b) !! d;
  }

  lemma SubsetMeasure<B>(u: set<B>, a: set<B>, b: set<B>)
    requires a <= b
    ensures |u - b| <= |u - a|
  {
    assert u - a == (u - b) + ((u - a) - (u - b));
  }

  // ---------------------------------------------------------------------------------
  // `_compute_sigma`

  /** sigma[k] += m[k] * n for every key of m, on a defaultdict. */
  function AddScaled<B>(acc: map<B, int>, m: map<B, int>, n: int): (r: map<B, int>)
    ensures r.Keys == acc.Keys + m.Keys
  {
    map k | k in acc.Keys + m.Keys :: (if k in acc then acc[k] else 0) + (if k in m then m[k] * n else 0)
  }

  /** r is acc with m·n added on the keys of m outside todo. */
  ghost predicate AddedExcept<B>(acc: map<B, int>, m: map<B, int>, n: int, todo: set<B>, r: map<B, int>)
  {
    && todo <= m.Keys
    && r.Keys == acc.Keys + (m.Keys - todo)
    && forall k | k in r :: r[k] == (if k in acc then acc[k] else 0) + (if k in m && k !in todo then m[k] * n else 0)
  }

  /** Adding the key k of todo. */
  lemma AddedStep<B>(acc: map<B, int>, m: map<B, int>, n: int, todo: set<B>, r: map<B, int>, k: B)
    requires AddedExcept(acc, m, n, todo, r) && k in todo
    ensures AddedExcept(acc, m, n, todo - {k}, r[k := (if k in r then r[k] else 0) + m[k] * n])
  {
  }

  /** With no key left, the whole sum. */
  lemma AddedAll<B>(acc: map<B, int>, m: map<B, int>, n: int, r: map<B, int>)
    requires AddedExcept(acc, m, n, {}, r)
    ensures r == AddScaled(acc, m, n)
  {
  }

  /** The inner loop of `_compute_sigma` over the keys of a callee's sigma. */
  method AddScaledInto<B>(acc: map<B, int>, m: map<B, int>, n: int) returns (r: map<B, int>)
    ensures r == AddScaled(acc, m, n)
  {
    r := acc;
    var todo := m.Keys;
    while todo != {}
      invariant AddedExcept(acc, m, n, todo, r)
      decreases |todo|
    {
      var k :| k in todo;
      var cur := if k in r then r[k] else 0;
      AddedStep(acc, m, n, todo, r, k);
      r := r[k := cur + m[k] * n];
      todo := todo - {k};
    }
    AddedAll(acc, m, n, r);
  }

  /** Σ row[v] · table[v] over the successors v in row (the caller's sigma as a
      defaultdict, summed in any order). */
  ghost function Combine<B>(row: map<B, int>, table: map<B, map<B, int>>): map<B, int>
    requires row.Keys <= table.Keys
    decreases |row|
  {
    if row == map[] then map[]
    else
      var v :| v in row;
      AddScaled(Combine(row - {v}, table), table[v], row[v])
  }

  /** Adding two scaled maps commutes. */
  lemma AddScaledSwap<B>(acc: map<B, int>, m1: map<B, int>, n1: int, m2: map<B, int>, n2: int)
    ensures AddScaled(AddScaled(acc, m1, n1), m2, n2) == AddScaled(AddScaled(acc, m2, n2), m1, n1)
  {
  }

  /** The sum does not depend on which successor comes last. */
  lemma {:induction false} CombineRemove<B>(row: map<B, int>, table: map<B, map<B, int>>, v: B)
    requires row.Keys <= table.Keys && v in row
    ensures Combine(row, table) == AddScaled(Combine(row - {v}, table), table[v], row[v])
    decreases |row|
  {
    var w :| w in row && Combine(row, table) == AddScaled(Combine(row - {w}, table), table[w], row[w]);
    if w != v {
      var rest := row - {w} - {v};
      assert row - {v} - {w} == rest;
      CombineRemove(row - {w}, table, v);
      CombineRemove(row - {v}, table, w);
      AddScaledSwap(Combine(rest, table), table[v], row[v], table[w], row[w]);
    }
  }

  /** The sum only reads the sigmas of the successors. */
  lemma {:induction false} CombineFrame<B>(row: map<B, int>, t1: map<B, map<B, int>>, t2: map<B, map<B, int>>)
    requires row.Keys <= t1.Keys && row.Keys <= t2.Keys
    requires forall v | v in row :: t1[v] == t2[v]
    ensures Combine(row, t1) == Combine(row, t2)
    decreases |row|
  {
    if row != map[] {
      var v :| v in row && Combine(row, t1) == AddScaled(Combine(row - {v}, t1), t1[v], row[v]);
      CombineRemove(row, t2, v);
      CombineFrame(row - {v}, t1, t2);
    }
  }

  /** Every key of the sum is a key of some successor's sigma. */
  lemma {:induction false} CombineKeys<B>(row: map<B, int>, table: map<B, map<B, int>>, k: B) returns (v: B)
    requires row.Keys <= table.Keys && k in Combine(row, table)
    ensures v in row && k in table[v]
    decreases |row|
  {
    var w :| w in row && Combine(row, table) == AddScaled(Combine(row - {w}, table), table[w], row[w]);
    if k in table[w] {
      v := w;
    } else {
      var rest := Combine(row - {w}, table);
      assert AddScaled(rest, table[w], row[w]).Keys == rest.Keys + table[w].Keys;
      v := CombineKeys(row - {w}, table, k);
    }
  }

  /** The loop of `_compute_sigma` over the successors of one node. */
  method CombineInto<B>(row: map<B, int>, table: map<B, map<B, int>>) returns (s: map<B, int>)
    requires row.Keys <= table.Keys
    ensures s == Combine(row, table)
  {
    s := map[];
    var todo := row.Keys;
    assert row - todo == map[];
    while todo != {}
      invariant todo <= row.Keys
      invariant s == Combine(row - todo, table)
      decreases |todo|
    {
      var v :| v in todo;
      CombineStep(row, table, todo, v);
      s := AddScaledInto(s, table[v], row[v]);
      todo := todo - {v};
    }
    assert row - {} == row;
  }

  /** Adding the successor v of todo to the partial sum. */
  lemma CombineStep<B>(row: map<B, int>, table: map<B, map<B, int>>, todo: set<B>, v: B)
    requires row.Keys <= table.Keys && todo <= row.Keys && v in todo
    ensures Combine(row - (todo - {v}), table) == AddScaled(Combine(row - todo, table), table[v], row[v])
  {
    var done := row - (todo - {v});
    assert v in done && done[v] == row[v];
    assert done - {v} == row - todo;
    CombineRemove(done, table, v);
  }

  /** The networkx DiGraph that `_build_call_graph` fills: for each node, its successors
      with the edge attribute n. */
  class DiGraph<B(==,!new)> {
    var adj: map<B, map<B, int>>
    /** Depth at which each node was added. */
    ghost var depthOf: map<B, nat>

    ghost predicate Valid()
      reads this
    {
      && depthOf.Keys == adj.Keys
      && forall u, v | u in adj && v in adj[u] :: v in adj
    }

    constructor ()
      ensures Valid() && adj == map[]
    {
      adj := map[];
      depthOf := map[];
    }

    /** `add_node` for a new node, recording the depth it was reached at. */
    method AddNode(u: B, depth: nat)
      requires Valid() && u !in adj
      modifies this
      ensures Valid()
      ensures adj == old(adj)[u := map[]] && depthOf == old(depthOf)[u := depth]
    {
      adj := adj[u := map[]];
      depthOf := depthOf[u := depth];
    }

    /** Add n to the count of edge (u, v), creating the edge with count n if it is new. */
    method AddToEdge(u: B, v: B, n: int)
      requires Valid() && u in adj && v in adj
      modifies this
      ensures Valid() && depthOf == old(depthOf)
      ensures adj == old(adj)[u := Bump(old(adj[u]), v, n)]
    {
      if v in adj[u] {
        adj := adj[u := adj[u][v := adj[u][v] + n]];
      } else {
        adj := adj[u := adj[u][v := n]];
      }
    }

    /** `_build_call_graph` from bloq at the given depth.  universe is a finite set of
        bloqs closed under expansion; it bounds the recursion. */
    method Build(bloq: B, gen: B -> Option<B>,
                 callees: B -> Result<seq<(B, int)>, DecomposeError>,
                 keep: B -> bool, maxDepth: Option<nat>, depth: nat, ghost universe: set<B>)
      requires Valid()
      requires bloq in universe && Closed(universe, gen, callees) && adj.Keys <= universe
      modifies this
      ensures Valid()
      ensures bloq in adj && adj.Keys <= universe && old(adj.Keys) <= adj.Keys
      ensures Grows(old(adj), old(depthOf), adj, depthOf)
      ensures forall u {:trigger Complete(u, adj, depthOf, gen, callees, keep, maxDepth)} | u in adj && u !in old(adj) :: Complete(u, adj, depthOf, gen, callees, keep, maxDepth)
      ensures bloq !in old(adj) ==> depthOf[bloq] == depth
      ensures ParentedOutside(old(adj.Keys) + {bloq}, adj, depthOf)
      decreases |universe - adj.Keys|, 0
    {
      if bloq in adj {
        ParentedNone(adj.Keys + {bloq}, adj, depthOf);
        return;
      }
      ghost var a0, d0 := adj, depthOf;
      AddNode(bloq, depth);
      GrowsAdd(a0, d0, bloq, depth);
      if keep(bloq) || (maxDepth.Some? && depth >= maxDepth.value) {
        LeafAdded(a0, adj, depthOf, bloq, gen, callees, keep, maxDepth);
        ParentedNone(a0.Keys + {bloq}, adj, depthOf);
        return;
      }
      ProperSubsetMeasure(universe, a0.Keys, adj.Keys, bloq);
      ghost var a1, d1 := adj, depthOf;
      assert a1.Keys == a0.Keys + {bloq};
      Expand(bloq, gen, callees, keep, maxDepth, depth, universe);
      GrowsPast(a0, d0, a1, d1, adj, depthOf, bloq);
      ExpandedAdded(a0, a1, adj, depthOf, bloq, gen, callees, keep, maxDepth);
    }

    /** The rest of `_build_call_graph` for bloq, just added at the given depth and neither
        kept nor at the depth bound: its callee counts, and the loop over them. */
    method Expand(bloq: B, gen: B -> Option<B>,
                  callees: B -> Result<seq<(B, int)>, DecomposeError>,
                  keep: B -> bool, maxDepth: Option<nat>, depth: nat, ghost universe: set<B>)
      requires Valid() && bloq in adj && adj[bloq] == map[] && bloq in depthOf && depthOf[bloq] == depth
      requires !keep(bloq) && !(maxDepth.Some? && depth >= maxDepth.value)
      requires bloq in universe && Closed(universe, gen, callees) && adj.Keys <= universe
      modifies this
      ensures Valid()
      ensures adj.Keys <= universe && old(adj.Keys) <= adj.Keys
      ensures Grows(old(adj)[bloq := adj[bloq]], old(depthOf), adj, depthOf)
      ensures Complete(bloq, adj, depthOf, gen, callees, keep, maxDepth)
      ensures forall u {:trigger Complete(u, adj, depthOf, gen, callees, keep, maxDepth)} | u in adj && u !in old(adj) :: Complete(u, adj, depthOf, gen, callees, keep, maxDepth)
      ensures ParentedOutside(old(adj.Keys), adj, depthOf)
      decreases |universe - adj.Keys|, 3
    {
      var r := GetBloqCalleeCounts(bloq, gen, callees, true);
      var cc := r.value;
      assert cc == Expansion(bloq, gen, callees);
      if cc == [] {
        ParentedNone(adj.Keys, adj, depthOf);
        return;
      }
      ExpansionInUniverse(universe, gen, callees, bloq);
      ghost var a1, d1 := adj, depthOf;
      VisitAll(bloq, cc, gen, callees, keep, maxDepth, depth + 1, universe);
      GrowsAt(a1[bloq := adj[bloq]], d1, adj, depthOf, bloq);
      assert !IsLeaf(bloq, depthOf[bloq], gen, callees, keep, maxDepth);
    }

    /** The loop of `_build_call_graph` over the callee list cc of bloq, whose callees are
        reached at the given depth. */
    method VisitAll(bloq: B, cc: seq<(B, int)>, gen: B -> Option<B>,
                    callees: B -> Result<seq<(B, int)>, DecomposeError>,
                    keep: B -> bool, maxDepth: Option<nat>, depth: nat, ghost universe: set<B>)
      requires Valid() && bloq in adj && adj[bloq] == map[]
      requires bloq in depthOf && depthOf[bloq] + 1 == depth
      requires forall j | 0 <= j < |cc| :: cc[j].0 in universe
      requires Closed(universe, gen, callees) && adj.Keys <= universe
      modifies this
      ensures Valid()
      ensures adj.Keys <= universe && old(adj.Keys) <= adj.Keys
      ensures adj[bloq] == CountsMap(cc)
      ensures Grows(old(adj)[bloq := adj[bloq]], old(depthOf), adj, depthOf)
      ensures forall u {:trigger Complete(u, adj, depthOf, gen, callees, keep, maxDepth)} | u in adj && u !in old(adj) :: Complete(u, adj, depthOf, gen, callees, keep, maxDepth)
      ensures ParentedOutside(old(adj.Keys), adj, depthOf)
      decreases |universe - adj.Keys|, 2
    {
      ghost var a0, d0 := adj, depthOf;
      for i := 0 to |cc|
        invariant Valid()
        invariant adj.Keys <= universe && a0.Keys <= adj.Keys
        invariant adj[bloq] == CountsMap(cc[..i])
        invariant Grows(a0[bloq := adj[bloq]], d0, adj, depthOf)
        invariant forall u {:trigger Complete(u, adj, depthOf, gen, callees, keep, maxDepth)} | u in adj && u !in a0 :: Complete(u, adj, depthOf, gen, callees, keep, maxDepth)
        invariant bloq in depthOf && depthOf[bloq] + 1 == depth
        invariant ParentedOutside(a0.Keys, adj, depthOf)
      {
        var (callee, n) := cc[i];
        SubsetMeasure(universe, a0.Keys, adj.Keys);
        ghost var a1, d1 := adj, depthOf;
        Visit(bloq, callee, n, gen, callees, keep, maxDepth, depth, universe);
        GrowsRow(a0, d0, a1, d1, adj, depthOf, bloq);
        GrowsAt(a1[bloq := adj[bloq]], d1, adj, depthOf, bloq);
        ParentedStep(a0.Keys, a1, d1, adj, depthOf, bloq);
        CountsMapStep(cc, i);
        forall u | u in adj && u !in a0
          ensures Complete(u, adj, depthOf, gen, callees, keep, maxDepth)
        {
          if u in a1 {
            GrowsAt(a1[bloq := adj[bloq]], d1, adj, depthOf, u);
            CompleteFrame(u, a1, d1, adj, depthOf, gen, callees, keep, maxDepth);
          }
        }
      }
      assert cc[..|cc|] == cc;
    }

    /** One step of the loop of `_build_call_graph`: build from callee (reached at the
        given depth), then add n to the edge from bloq to callee. */
    method Visit(bloq: B, callee: B, n: int, gen: B -> Option<B>,
                 callees: B -> Result<seq<(B, int)>, DecomposeError>,
                 keep: B -> bool, maxDepth: Option<nat>, depth: nat, ghost universe: set<B>)
      requires Valid() && bloq in adj
      requires bloq in depthOf && depthOf[bloq] + 1 == depth
      requires callee in universe && Closed(universe, gen, callees) && adj.Keys <= universe
      modifies this
      ensures Valid()
      ensures callee in adj && adj.Keys <= universe && old(adj.Keys) <= adj.Keys
      ensures adj[bloq] == Bump(old(adj[bloq]), callee, n)
      ensures Grows(old(adj)[bloq := adj[bloq]], old(depthOf), adj, depthOf)
      ensures forall u {:trigger Complete(u, adj, depthOf, gen, callees, keep, maxDepth)} | u in adj && u !in old(adj) :: Complete(u, adj, depthOf, gen, callees, keep, maxDepth)
      ensures ParentedOutside(old(adj.Keys), adj, depthOf)
      decreases |universe - adj.Keys|, 1
    {
      ghost var a1, d1 := adj, depthOf;
      Build(callee, gen, callees, keep, maxDepth, depth, universe);
      ghost var a2, d2 := adj, depthOf;
      GrowsAt(a1, d1, a2, d2, bloq);
      ParentedEdge(a1.Keys, a2, d2, bloq, callee, n);
      AddToEdge(bloq, callee, n);
      GrowsBump(a1, d1, a2, d2, bloq, adj[bloq]);
      forall u | u in adj && u !in a1
        ensures Complete(u, adj, depthOf, gen, callees, keep, maxDepth)
      {
        CompleteFrame(u, a2, d2, adj, depthOf, gen, callees, keep, maxDepth);
      }
    }

    /** Every node, each placed after all its successors (pos gives the place of each
        node): the reverse of a topological order. */
    ghost predicate IsReverseTopological(order: seq<B>, pos: map<B, nat>)
      reads this
    {
      && pos.Keys == adj.Keys
      && (forall u | u in adj :: pos[u] < |order| && order[pos[u]] == u)
      && (forall k | 0 <= k < |order| :: order[k] in adj && pos[order[k]] == k)
      && (forall u, v | u in adj && v in adj[u] :: v in pos && pos[v] < pos[u])
    }

    /** A non-empty set of nodes each of which calls a node of the set: in a finite graph,
        a cycle runs through it. */
    ghost predicate HasCycle()
      reads this
    {
      exists c: set<B> :: EdgesWithin(c, adj)
    }

    lemma CycleFound(c: set<B>)
      requires c != {} && c <= adj.Keys
      requires forall u | u in c :: exists v :: v in adj[u] && v in c
      ensures HasCycle()
    {
      assert EdgesWithin(c, adj);
    }

    /** A reverse topological order rules out a cycle: inside one, the place of a node
        would have to drop along its edges without end. */
    lemma OrderedAcyclic(order: seq<B>, pos: map<B, nat>)
      requires IsReverseTopological(order, pos)
      ensures !HasCycle()
    {
      forall c: set<B> ensures !EdgesWithin(c, adj) {
        if EdgesWithin(c, adj) {
          var u :| u in c;
          PlaceUnbounded(pos, c, u, pos[u] + 1);
          assert false;
        }
      }
    }

    /** Along edges inside c, each of whose nodes has an edge into c, the place drops at
        every step, so no node of c can have a place below k, for any k. */
    lemma {:induction false} PlaceUnbounded(pos: map<B, nat>, c: set<B>, u: B, k: nat)
      requires pos.Keys == adj.Keys && forall x, y | x in adj && y in adj[x] :: y in pos && pos[y] < pos[x]
      requires EdgesWithin(c, adj) && u in c
      ensures pos[u] >= k
      decreases k
    {
      if k > 0 {
        assert EdgeInto(adj, u, c);
        var v :| v in adj[u] && v in c;
        PlaceUnbounded(pos, c, v, k - 1);
      }
    }

    /** The state of the sort: the nodes not in remaining are placed, pos gives the place
        of each, and each placed node comes after its successors. */
    ghost predicate Placement(placed: seq<B>, pos: map<B, nat>, remaining: set<B>)
      reads this
    {
      && remaining <= adj.Keys && pos.Keys <= adj.Keys
      && (forall u | u in adj :: u in pos <==> u !in remaining)
      && (forall u | u in pos :: pos[u] < |placed| && placed[pos[u]] == u)
      && (forall k | 0 <= k < |placed| :: placed[k] in pos && pos[placed[k]] == k)
      && (forall u, v | u in pos && v in adj[u] :: v in pos && pos[v] < pos[u])
    }

    /** Placing a remaining node whose successors are all placed keeps the placement. */
    lemma PlaceStep(placed: seq<B>, pos: map<B, nat>, remaining: set<B>, v: B)
      requires Valid() && Placement(placed, pos, remaining) && v in remaining
      requires forall w | w in adj[v] :: w !in remaining
      ensures Placement(placed + [v], pos[v := |placed|], remaining - {v})
    {
    }

    lemma PlacementStart()
      ensures Placement([], map[], adj.Keys)
    {
    }

    /** With nothing remaining, the placement is a reverse topological order. */
    lemma PlacementDone(placed: seq<B>, pos: map<B, nat>)
      requires Valid() && Placement(placed, pos, {})
      ensures IsReverseTopological(placed, pos)
    {
    }

    /** A node of remaining all of whose successors lie outside it, if there is one. */
    method PickReady(remaining: set<B>) returns (r: Option<B>)
      requires remaining <= adj.Keys
      ensures r.Some? ==> r.value in remaining && forall w | w in adj[r.value] :: w !in remaining
      ensures r.None? ==> forall u | u in remaining :: exists w :: w in adj[u] && w in remaining
    {
      if v :| v in remaining && forall w | w in adj[v] :: w !in remaining {
        return Some(v);
      }
      return None;
    }

    /** The loop of the sort: None when no remaining node is ready. */
    method PlaceAll() returns (ok: bool, placed: seq<B>, ghost p: map<B, nat>)
      requires Valid()
      ensures ok ==> Placement(placed, p, {})
      ensures !ok ==> HasCycle()
    {
      placed := [];
      p := map[];
      var remaining := adj.Keys;
      PlacementStart();
      while remaining != {}
        invariant Placement(placed, p, remaining)
        decreases |remaining|
      {
        var next := PickReady(remaining);
        if next.None? {
          CycleFound(remaining);
          return false, placed, p;
        }
        var v := next.value;
        PlaceStep(placed, p, remaining, v);
        p := p[v := |placed|];
        placed := placed + [v];
        remaining := remaining - {v};
      }
      ok := true;
    }

    /** `reversed(list(nx.topological_sort(g)))`: None, the NetworkXUnfeasible error,
        when the graph has a cycle. */
    method ReverseTopologicalSort() returns (order: Option<seq<B>>, ghost pos: map<B, nat>)
      requires Valid()
      ensures order.Some? ==> IsReverseTopological(order.value, pos)
      ensures order.None? ==> HasCycle()
    {
      var ok, placed, p := PlaceAll();
      if !ok {
        return None, p;
      }
      PlacementDone(placed, p);
      return Some(placed), p;
    }

    /** The nodes without successors. */
    ghost function Sinks(): set<B>
      reads this
    {
      set k | k in adj && adj[k] == map[]
    }

    /** The sigma `_compute_sigma` gives u from the sigmas t of its successors: one of
        itself without successors, else the sum of n(u, v) times the sigma of each
        successor v. */
    ghost function SigmaOf(u: B, t: map<B, map<B, int>>): map<B, int>
      reads this
      requires u in adj && adj[u].Keys <= t.Keys
    {
      if adj[u] == map[] then map[u := 1] else Combine(adj[u], t)
    }

    /** The equations of `_compute_sigma`, one per node. */
    ghost predicate SigmaTable(table: map<B, map<B, int>>)
      reads this
      requires Valid()
    {
      && table.Keys == adj.Keys
      && forall u | u in adj :: table[u] == SigmaOf(u, table)
    }

    /** The sigma of one node from those of its successors. */
    method NodeSigma(u: B, t: map<B, map<B, int>>) returns (s: map<B, int>)
      requires u in adj && adj[u].Keys <= t.Keys
      ensures s == SigmaOf(u, t)
    {
      var row := adj[u];
      if row == map[] {
        s := map[u := 1];
      } else {
        s := CombineInto(row, t);
      }
    }

    /** The sigma of a node counts only nodes without successors, when those of its
        successors do. */
    lemma SigmaOfLeaves(u: B, t: map<B, map<B, int>>)
      requires u in adj && adj[u].Keys <= t.Keys
      requires forall v | v in t :: t[v].Keys <= Sinks()
      ensures SigmaOf(u, t).Keys <= Sinks()
    {
      if adj[u] != map[] {
        forall k | k in SigmaOf(u, t) ensures k in Sinks() {
          var v := CombineKeys(adj[u], t, k);
        }
      }
    }

    /** The sigmas t of the first i nodes of the order with place map pos, each as
        `_compute_sigma` gives it and counting only nodes without successors. */
    ghost predicate SigmasUpTo(pos: map<B, nat>, t: map<B, map<B, int>>, i: nat)
      reads this
    {
      && t.Keys <= adj.Keys && pos.Keys == adj.Keys
      && (forall u | u in adj :: u in t <==> pos[u] < i)
      && (forall u | u in t :: adj[u].Keys <= t.Keys && t[u] == SigmaOf(u, t))
      && (forall u | u in t :: t[u].Keys <= Sinks())
    }

    /** In the loop of `_compute_sigma` at place i of order: the successors of order[i]
        have their sigmas, and order[i] is not a successor of any node already done. */
    lemma Ready(order: seq<B>, pos: map<B, nat>, t: map<B, map<B, int>>, i: nat)
      requires IsReverseTopological(order, pos) && i < |order| && SigmasUpTo(pos, t, i)
      ensures order[i] in adj && order[i] !in t && adj[order[i]].Keys <= t.Keys
      ensures forall u | u in t :: order[i] !in adj[u]
      ensures pos[order[i]] == i && forall u | u in adj && pos[u] == i :: u == order[i]
    {
    }

    /** One step of the loop of `_compute_sigma`: bloq, at place i, gets its sigma s. */
    lemma SigmaStep(pos: map<B, nat>, t: map<B, map<B, int>>, i: nat, bloq: B, s: map<B, int>)
      requires SigmasUpTo(pos, t, i) && bloq in adj && pos[bloq] == i
      requires forall u | u in adj && pos[u] == i :: u == bloq
      requires adj[bloq].Keys <= t.Keys && forall u | u in t :: bloq !in adj[u]
      requires s == SigmaOf(bloq, t)
      ensures SigmasUpTo(pos, t[bloq := s], i + 1)
    {
      SigmaOfLeaves(bloq, t);
      var t' := t[bloq := s];
      assert t'.Keys <= adj.Keys;
      assert forall u | u in adj :: u in t' <==> pos[u] < i + 1;
      forall u | u in t' ensures adj[u].Keys <= t'.Keys && t'[u] == SigmaOf(u, t') {
        SigmaFrame(t, u, bloq, s);
      }
      assert forall u | u in t' :: t'[u].Keys <= Sinks();
    }

    /** Without a cycle the equations of `_compute_sigma` have a single solution: the nodes
        where two solutions differ would each have a successor where they differ. */
    lemma SigmaTableUnique(t1: map<B, map<B, int>>, t2: map<B, map<B, int>>)
      requires Valid() && !HasCycle() && SigmaTable(t1) && SigmaTable(t2)
      ensures t1 == t2
    {
      var diff := set u | u in adj && t1[u] != t2[u];
      if diff != {} {
        DifferencesCycle(t1, t2, diff);
        assert false;
      }
      forall u | u in t1 ensures t1[u] == t2[u] {
        assert u !in diff;
      }
    }

    lemma DifferencesCycle(t1: map<B, map<B, int>>, t2: map<B, map<B, int>>, diff: set<B>)
      requires Valid() && SigmaTable(t1) && SigmaTable(t2)
      requires diff != {} && diff == set u | u in adj && t1[u] != t2[u]
      ensures EdgesWithin(diff, adj)
    {
      forall u | u in diff ensures EdgeInto(adj, u, diff) {
        assert adj[u] != map[];
        if forall v | v in adj[u] :: t1[v] == t2[v] {
          CombineFrame(adj[u], t1, t2);
          assert false;
        }
        var v :| v in adj[u] && t1[v] != t2[v];
        assert v in diff;
      }
    }

    /** After the whole order, every node has its sigma. */
    lemma SigmasDone(order: seq<B>, pos: map<B, nat>, t: map<B, map<B, int>>)
      requires Valid() && IsReverseTopological(order, pos) && SigmasUpTo(pos, t, |order|)
      ensures SigmaTable(t) && forall u | u in t :: t[u].Keys <= Sinks()
    {
    }

    /** Adding the sigma of a node no finished node calls leaves their sigmas as they were. */
    lemma SigmaFrame(t: map<B, map<B, int>>, u: B, bloq: B, s: map<B, int>)
      requires u in adj && adj[u].Keys <= t.Keys && bloq !in adj[u]
      ensures SigmaOf(u, t) == SigmaOf(u, t[bloq := s])
    {
      if adj[u] != map[] {
        CombineFrame(adj[u], t, t[bloq := s]);
      }
    }

    /** `_compute_sigma`: fold the sigmas in reverse topological order. */
    method ComputeSigma(root: B) returns (sigma: Result<map<B, int>, CallGraphError>, ghost table: map<B, map<B, int>>)
      requires Valid() && root in adj
      ensures sigma.Ok? ==> SigmaTable(table) && sigma.value == table[root]
      ensures sigma.Err? ==> sigma.error == CallCycle && HasCycle()
      ensures sigma.Ok? ==> !HasCycle()
      ensures sigma.Ok? ==> forall u | u in table :: table[u].Keys <= Sinks()
    {
      var sorted, pos := ReverseTopologicalSort();
      if sorted.None? {
        return Err(CallCycle), map[];
      }
      var order := sorted.value;
      OrderedAcyclic(order, pos);
      var t: map<B, map<B, int>> := map[];
      for i := 0 to |order|
        invariant SigmasUpTo(pos, t, i)
      {
        var bloq := order[i];
        Ready(order, pos, t, i);
        var s := NodeSigma(bloq, t);
        SigmaStep(pos, t, i, bloq, s);
        t := t[bloq := s];
      }
      SigmasDone(order, pos, t);
      return Ok(t[root]), t;
    }
  }

  /** `get_bloq_call_graph`: generalize the root, build the graph from it at depth 0 and
      fold the sigmas.  built is the graph that was built, also when the fold fails. */
  method GetBloqCallGraph<B(==,!new)>(root: B, gen: B -> Option<B>,
                                      callees: B -> Result<seq<(B, int)>, DecomposeError>,
                                      keep: B -> bool, maxDepth: Option<nat>, ghost universe: set<B>)
    returns (result: Result<(DiGraph<B>, map<B, int>), CallGraphError>, ghost built: DiGraph<B>)
    requires Closed(universe, gen, callees)
    requires gen(root).Some? ==> gen(root).value in universe
    ensures gen(root) == None ==> result == Err(RootGeneralizedAway)
    ensures gen(root).Some? ==>
      && built.Valid() && built.adj.Keys <= universe
      && BuiltFrom(built.adj, built.depthOf, gen(root).value, gen, callees, keep, maxDepth)
      && (result.Ok? <==> !built.HasCycle())
    ensures result.Err? && gen(root).Some? ==> result.error == CallCycle && CyclicCalls(universe, gen, callees)
    ensures result.Ok? ==>
      && gen(root).Some? && built.Valid() && result.value.0 == built
      && (exists table :: built.SigmaTable(table) && result.value.1 == table[gen(root).value])
      && (forall table | built.SigmaTable(table) :: result.value.1 == table[gen(root).value])
  {
    var g := new DiGraph<B>();
    built := g;
    var bloq := gen(root);
    if bloq.None? {
      return Err(RootGeneralizedAway), built;
    }
    g.Build(bloq.value, gen, callees, keep, maxDepth, 0, universe);
    forall u | u in g.adj ensures u in g.depthOf && Reaches(g.adj, bloq.value, u, g.depthOf[u]) {
      DepthIsPathLength(g.adj, g.depthOf, bloq.value, u);
    }
    var sigma, table := g.ComputeSigma(bloq.value);
    if sigma.Err? {
      CycleOfCalls(g.adj, g.depthOf, gen, callees, keep, maxDepth, universe);
      return Err(sigma.error), built;
    }
    forall t | g.SigmaTable(t) ensures sigma.value == t[bloq.value] {
      g.SigmaTableUnique(table, t);
    }
    return Ok((g, sigma.value)), built;
  }


  /** Some non-empty set of bloqs of the universe each of which has a callee, after
      generalization, in the set: the bloqs call each other in a cycle. */
  ghost predicate CyclicCalls<B(!new)>(universe: set<B>, gen: B -> Option<B>,
                                        callees: B -> Result<seq<(B, int)>, DecomposeError>)
  {
    exists c: set<B> :: CallsWithin(c, universe, gen, callees)
  }

  ghost predicate CallsWithin<B>(c: set<B>, universe: set<B>, gen: B -> Option<B>,
                                 callees: B -> Result<seq<(B, int)>, DecomposeError>)
  {
    c != {} && c <= universe &&
    forall u {:trigger CallsInto(u, c, gen, callees)} | u in c :: CallsInto(u, c, gen, callees)
  }

  /** Bloq u has a generalized callee in c. */
  ghost predicate CallsInto<B>(u: B, c: set<B>, gen: B -> Option<B>,
                               callees: B -> Result<seq<(B, int)>, DecomposeError>)
  {
    exists v :: v in c && v in KeysOf(Expansion(u, gen, callees))
  }

  ghost predicate EdgesWithin<B>(c: set<B>, adj: map<B, map<B, int>>) {
    c != {} && c <= adj.Keys && forall u {:trigger EdgeInto(adj, u, c)} | u in c :: EdgeInto(adj, u, c)
  }

  /** Node u has an out-edge into c. */
  ghost predicate EdgeInto<B>(adj: map<B, map<B, int>>, u: B, c: set<B>) {
    u in adj && exists v :: v in adj[u] && v in c
  }

  /** A cycle of the built graph is a cycle of calls: an edge u -> v is only there when v is
      a generalized callee of u. */
  lemma CycleOfCalls<B(!new)>(adj: map<B, map<B, int>>, d: map<B, nat>, gen: B -> Option<B>,
                              callees: B -> Result<seq<(B, int)>, DecomposeError>,
                              keep: B -> bool, maxDepth: Option<nat>, universe: set<B>)
    requires adj.Keys <= universe
    requires exists c: set<B> :: EdgesWithin(c, adj)
    requires forall u | u in adj :: Complete(u, adj, d, gen, callees, keep, maxDepth)
    ensures CyclicCalls(universe, gen, callees)
  {
    forall c: set<B> | EdgesWithin(c, adj)
      ensures CallsWithin(c, universe, gen, callees)
    {
      CycleIsCalls(adj, d, gen, callees, keep, maxDepth, universe, c);
    }
  }

  lemma CycleIsCalls<B>(adj: map<B, map<B, int>>, d: map<B, nat>, gen: B -> Option<B>,
                        callees: B -> Result<seq<(B, int)>, DecomposeError>,
                        keep: B -> bool, maxDepth: Option<nat>, universe: set<B>, c: set<B>)
    requires adj.Keys <= universe && EdgesWithin(c, adj)
    requires forall u {:trigger Complete(u, adj, d, gen, callees, keep, maxDepth)} | u in adj ::
      Complete(u, adj, d, gen, callees, keep, maxDepth)
    ensures CallsWithin(c, universe, gen, callees)
  {
    forall u | u in c
      ensures CallsInto(u, c, gen, callees)
    {
      assert EdgeInto(adj, u, c);
      var v :| v in adj[u] && v in c;
      EdgeIsCall(adj, d, gen, callees, keep, maxDepth, u, v);
    }
  }

  /** An out-edge of a completed node goes to one of its generalized callees. */
  lemma EdgeIsCall<B>(adj: map<B, map<B, int>>, d: map<B, nat>, gen: B -> Option<B>,
                      callees: B -> Result<seq<(B, int)>, DecomposeError>,
                      keep: B -> bool, maxDepth: Option<nat>, u: B, v: B)
    requires Complete(u, adj, d, gen, callees, keep, maxDepth) && v in adj[u]
    ensures v in KeysOf(Expansion(u, gen, callees))
  {
    CountsMapWeight(Expansion(u, gen, callees), v);
  }
}
