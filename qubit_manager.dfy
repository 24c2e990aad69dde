// The greedy ancilla manager (cirq_qubitization/qubit_manager.py): a pool of named qubits
// `prefix_0, prefix_1, ...`, a set of those in use and a list of those free, grown on demand.

module QubitManager {
  /** cirq.q(f'{prefix}_{index}'): within one manager the prefix is fixed, so the index
      alone tells the qubits apart. */
  datatype Qubit = Qubit(prefix: string, index: int)

  predicate Distinct(s: seq<Qubit>) {
    forall i, j | 0 <= i < j < |s| :: s[i] != s[j]
  }

  function Elems(s: seq<Qubit>): set<Qubit> {
    set x | x in s
  }

  /** `[cirq.q(f'{prefix}_{s}') for s in range(lo, hi)]`. */
  function Fresh(prefix: string, lo: int, hi: int): (r: seq<Qubit>)
    requires lo <= hi
    ensures |r| == hi - lo && forall i | 0 <= i < |r| :: r[i] == Qubit(prefix, lo + i)
  {
    seq(hi - lo, i => Qubit(prefix, lo + i))
  }

  /** The qubits a manager of this size owns. */
  function Managed(prefix: string, size: int): set<Qubit> {
    set s | 0 <= s < size :: Qubit(prefix, s)
  }

  /** The manager's invariant: the used set and the free list are disjoint, the free list
      repeats no qubit, and together they are exactly the qubits the manager owns. */
  ghost predicate Accounted(prefix: string, used: set<Qubit>, free: seq<Qubit>, size: int) {
    && size >= 0
    && Distinct(free)
    && used !! Elems(free)
    && used + Elems(free) == Managed(prefix, size)
  }

  /** A manager's used and free qubits together number its size. */
  lemma {:induction false} AccountedCount(prefix: string, used: set<Qubit>, free: seq<Qubit>, size: int)
    requires Accounted(prefix, used, free, size)
    ensures |used| + |free| == size
  {
    ManagedCount(prefix, size);
    DistinctCount(free);
    assert |used + Elems(free)| == |used| + |Elems(free)|;
  }

  lemma {:induction false} ManagedCount(prefix: string, size: nat)
    ensures |Managed(prefix, size)| == size
  {
    if size > 0 {
      ManagedCount(prefix, size - 1);
      assert Managed(prefix, size) == Managed(prefix, size - 1) + {Qubit(prefix, size - 1)};
    }
  }

  lemma {:induction false} DistinctCount(s: seq<Qubit>)
    requires Distinct(s)
    ensures |Elems(s)| == |s|
  {
    if s != [] {
      var p := s[..|s| - 1];
      assert Distinct(p);
      DistinctCount(p);
      assert Elems(s) == Elems(p) + {s[|s| - 1]};
      assert s[|s| - 1] !in Elems(p);
    }
  }

  /** A Python index into a list of length len, negative ones counting from the end, clamped
      to the list as slicing clamps it. */
  function PyIndex(i: int, len: nat): (r: nat)
    ensures r <= len
  {
    if i < 0 then (if len + i < 0 then 0 else len + i)
    else if i > len then len else i
  }

  /** The qubits qalloc(n) returns and the free list it leaves: `free[:n]` and `free[n:]`
      when parallelizing, else `free[-n:]` and `free[:-n]`. */
  function TakeAsWritten(free: seq<Qubit>, n: int, parallelize: bool): (seq<Qubit>, seq<Qubit>) {
    if parallelize then
      var j := PyIndex(n, |free|);
      (free[..j], free[j..])
    else
      var j := PyIndex(-n, |free|);
      (free[j..], free[..j])
  }

  /** As written, qalloc(0) without parallelizing returns the whole free list, since
      `free[-0:]` is `free[0:]`. */
  lemma {:induction false} TakeAsWrittenZero(a: Qubit, b: Qubit)
    ensures TakeAsWritten([a, b], 0, false) == ([a, b], [])
  {
  }

  /** The intended split: as written, except that a request for no qubits from the back
      takes none. */
  function Take(free: seq<Qubit>, n: int, parallelize: bool): (seq<Qubit>, seq<Qubit>) {
    if parallelize then
      var j := PyIndex(n, |free|);
      (free[..j], free[j..])
    else
      var j := if n == 0 then |free| else PyIndex(-n, |free|);
      (free[j..], free[..j])
  }

  /** Cutting a list that repeats no qubit gives two such lists, with no qubit in both, that
      hold its qubits between them. */
  lemma {:induction false} SplitAt(free: seq<Qubit>, j: nat)
    requires Distinct(free) && j <= |free|
    ensures Distinct(free[..j]) && Distinct(free[j..])
    ensures Elems(free[..j]) + Elems(free[j..]) == Elems(free)
    ensures Elems(free[..j]) !! Elems(free[j..])
  {
    assert free == free[..j] + free[j..];
  }

  /** The split hands over exactly n qubits when there are enough, and the returned qubits
      and those left free are the old free list, neither sharing a qubit with the other. */
  lemma {:induction false} TakeSpec(free: seq<Qubit>, n: int, parallelize: bool)
    requires Distinct(free)
    ensures var (ret, rest) := Take(free, n, parallelize);
      && (0 <= n <= |free| ==> |ret| == n)
      && (parallelize ==> ret + rest == free)
      && (!parallelize ==> rest + ret == free)
      && Distinct(ret) && Distinct(rest)
      && Elems(ret) + Elems(rest) == Elems(free) && Elems(ret) !! Elems(rest)
  {
    var j := if parallelize then PyIndex(n, |free|) else if n == 0 then |free| else PyIndex(-n, |free|);
    SplitAt(free, j);
    assert free[..j] + free[j..] == free;
  }

  /** The split as written: exactly n qubits when there are enough, except that a request for
      none from the back takes the whole free list; either way the returned qubits and those
      left free are the old free list, neither sharing a qubit with the other. */
  lemma {:induction false} TakeAsWrittenSpec(free: seq<Qubit>, n: int, parallelize: bool)
    requires Distinct(free)
    ensures var (ret, rest) := TakeAsWritten(free, n, parallelize);
      && ((parallelize || n != 0) && 0 <= n <= |free| ==> |ret| == n)
      && (!parallelize && n == 0 ==> ret == free && rest == [])
      && (parallelize ==> ret + rest == free)
      && (!parallelize ==> rest + ret == free)
      && Distinct(ret) && Distinct(rest)
      && Elems(ret) + Elems(rest) == Elems(free) && Elems(ret) !! Elems(rest)
  {
    var j := if parallelize then PyIndex(n, |free|) else PyIndex(-n, |free|);
    SplitAt(free, j);
    assert free[..j] + free[j..] == free;
  }

  /** The two splits agree except for a request of no qubits from the back. */
  lemma {:induction false} TakeAgrees(free: seq<Qubit>, n: int, parallelize: bool)
    requires parallelize || n != 0
    ensures Take(free, n, parallelize) == TakeAsWritten(free, n, parallelize)
  {
  }

  class GreedyQubitManager {
    const prefix: string
    var used: set<Qubit>
    var free: seq<Qubit>
    var size: int
    var parallelize: bool

    ghost predicate Valid()
      reads this
    {
      Accounted(prefix, used, free, size)
    }

    /** `GreedyQubitManager(prefix, size=size, parallelize=parallelize)`. */
    constructor (prefix: string, size: int, parallelize: bool)
      ensures this.prefix == prefix && this.parallelize == parallelize && used == {}
      ensures size > 0 ==> this.size == size && free == Fresh(prefix, 0, size)
      ensures size <= 0 ==> this.size == 0 && free == []
      ensures Valid()
    {
      this.prefix := prefix;
      used := {};
      free := [];
      this.size := 0;
      this.parallelize := parallelize;
      new;
      assert Valid();
      Resize(size);
    }

    /** `resize`: a larger size puts the new qubits, in index order, in front of the free list. */
    method Resize(newSize: int)
      modifies this
      ensures used == old(used) && parallelize == old(parallelize)
      ensures newSize <= old(size) ==> free == old(free) && size == old(size)
      ensures newSize > old(size) ==> free == Fresh(prefix, old(size), newSize) + old(free) && size == newSize
      ensures old(Valid()) ==> Valid()
    {
      if newSize <= size {
        return;
      }
      ghost var wasValid := Valid();
      var newQubits := Fresh(prefix, size, newSize);
      if wasValid {
        ResizeKeeps(prefix, used, free, size, newSize);
      }
      free := newQubits + free;
      size := newSize;
    }

    /** `qalloc(n)`: grows the pool so that n qubits are free, then takes them from the
        front of the free list when parallelizing and from its back otherwise, and marks
        them used. As written, qalloc(0) without parallelizing takes the whole free list,
        since `free[-0:]` is `free[0:]`. */
    method QAlloc(n: int) returns (ret: seq<Qubit>)
      modifies this
      ensures var grown := if size > old(size) then Fresh(prefix, old(size), size) + old(free) else old(free);
        && (size > old(size) ==> size == old(size) + n - |old(free)|)
        && (size <= old(size) ==> size == old(size))
        && (ret, free) == TakeAsWritten(grown, n, parallelize)
      ensures used == old(used) + Elems(ret) && parallelize == old(parallelize)
      ensures forall q :: IsUsed(q) <==> old(IsUsed(q)) || q in ret
      ensures old(Valid()) ==> Valid() && Elems(ret) !! old(used) && Distinct(ret)
      ensures old(Valid()) && n >= 0 && (parallelize || n != 0) ==> |ret| == n
      ensures !parallelize && n == 0 ==> ret == old(free) && free == []
    {
      ghost var wasValid := Valid();
      Resize(size + n - |free|);
      assert n >= 0 ==> n <= |free|;
      ghost var grown := free;
      ret, free := TakeAsWritten(free, n, parallelize).0, TakeAsWritten(free, n, parallelize).1;
      if wasValid {
        TakeKeeps(prefix, used, grown, ret, free, size, n, parallelize);
      }
      used := used + Elems(ret);
    }

    /** `qfree(qubits)`: the assertion that all of them are in use fails (ok is false and
        nothing changes); otherwise they leave the used set and join the end of the free
        list, in some order, each once. */
    method QFree(qubits: seq<Qubit>) returns (ok: bool)
      modifies this
      ensures ok <==> Elems(qubits) <= old(used)
      ensures !ok ==> used == old(used) && free == old(free)
      ensures ok ==>
                && used == old(used) - Elems(qubits) && |free| >= |old(free)|
                && free[..|old(free)|] == old(free) && Elems(free[|old(free)|..]) == Elems(qubits)
                && Distinct(free[|old(free)|..])
      ensures size == old(size) && parallelize == old(parallelize)
      ensures old(Valid()) ==> Valid()
      ensures ok ==> forall q :: IsUsed(q) <==> old(IsUsed(q)) && q !in qubits
    {
      var qs := Elems(qubits);
      if !(qs <= used) {
        return false;
      }
      ghost var wasValid := Valid();
      var order := Enumerate(qs);
      FreeKeeps(prefix, used, free, order, size);
      used := used - qs;
      free := free + order;
      assert free[..|old(free)|] == old(free) && free[|old(free)|..] == order;
      ok := true;
    }

    /** `is_used(q)`. */
    predicate IsUsed(q: Qubit)
      reads this
    {
      q in used
    }
  }

  /** Growing the pool keeps the account. */
  lemma {:induction false} ResizeKeeps(prefix: string, used: set<Qubit>, free: seq<Qubit>, size: int, newSize: int)
    requires Accounted(prefix, used, free, size) && newSize > size
    ensures Accounted(prefix, used, Fresh(prefix, size, newSize) + free, newSize)
  {
    var nq := Fresh(prefix, size, newSize);
    var f := nq + free;
    assert Elems(f) == Elems(nq) + Elems(free);
    assert Elems(nq) == Managed(prefix, newSize) - Managed(prefix, size) by {
      forall q | q in Managed(prefix, newSize) - Managed(prefix, size) ensures q in Elems(nq) {
        assert nq[q.index - size] == q;
      }
    }
    forall i, j | 0 <= i < j < |f| ensures f[i] != f[j] {
      if j < |nq| {
        assert f[i].index != f[j].index;
      } else if i < |nq| {
        assert f[i] !in Managed(prefix, size);
        assert f[j] in Elems(free);
      } else {
        assert f[i] == free[i - |nq|] && f[j] == free[j - |nq|];
      }
    }
  }

  /** Allocating keeps the account, and hands out distinct qubits that were free. */
  lemma {:induction false} TakeKeeps(prefix: string, used: set<Qubit>, free: seq<Qubit>,
                                     ret: seq<Qubit>, rest: seq<Qubit>, size: int, n: int, parallelize: bool)
    requires Accounted(prefix, used, free, size) && (ret, rest) == TakeAsWritten(free, n, parallelize)
    ensures Accounted(prefix, used + Elems(ret), rest, size)
    ensures Elems(ret) !! used && Distinct(ret)
    ensures (parallelize || n != 0) && 0 <= n <= |free| ==> |ret| == n
  {
    TakeAsWrittenSpec(free, n, parallelize);
  }

  /** Freeing qubits in use keeps the account. */
  lemma {:induction false} FreeKeeps(prefix: string, used: set<Qubit>, free: seq<Qubit>, order: seq<Qubit>, size: int)
    requires Elems(order) <= used && Distinct(order)
    ensures Accounted(prefix, used, free, size) ==> Accounted(prefix, used - Elems(order), free + order, size)
  {
    if Accounted(prefix, used, free, size) {
      var f := free + order;
      assert Elems(f) == Elems(free) + Elems(order);
      forall i, j | 0 <= i < j < |f| ensures f[i] != f[j] {
        if j < |free| {
        } else if i < |free| {
          assert f[i] in Elems(free) && f[j] in Elems(order);
        } else {
          assert f[i] == order[i - |free|] && f[j] == order[j - |free|];
        }
      }
    }
  }

  /** The qubits of a set as a list, each once, in an unspecified order (a Python set's
      iteration order). */
  method Enumerate(s: set<Qubit>) returns (r: seq<Qubit>)
    ensures Elems(r) == s && Distinct(r)
  {
    r := [];
    var rest := s;
    while rest != {}
      invariant Elems(r) + rest == s && Elems(r) !! rest && Distinct(r)
      decreases |rest|
    {
      var x :| x in rest;
      DistinctAppend(r, x);
      r := r + [x];
      rest := rest - {x};
    }
  }

  lemma {:induction false} DistinctAppend(r: seq<Qubit>, x: Qubit)
    requires Distinct(r) && x !in Elems(r)
    ensures Distinct(r + [x]) && Elems(r + [x]) == Elems(r) + {x}
  {
    var r' := r + [x];
    forall i, j | 0 <= i < j < |r'| ensures r'[i] != r'[j] {
      if j == |r| {
        assert r'[i] == r[i] && r[i] in Elems(r);
      } else {
        assert r'[i] == r[i] && r'[j] == r[j];
      }
    }
  }
}
