// Magic state factories of the surface-code cost model
// (cirq_qubitization/surface_code/magic_state_factory.py).
//
// A factory is a base factory with known costs, N copies of a factory, or a multi-level
// factory whose levels re-use space or time.  Costs are integers; the source's failures
// (max of no levels, dividing by zero factories, a bad `re_use`) become `Err` results.

module MagicStateFactory {
  import opened Wrappers
  import PyInt

  /** Numbers of T and of CCZ (Toffoli) magic states a computation needs. */
  datatype MagicStateCount = MagicStateCount(tCount: int, cczCount: int)

  /** The T count needed to do every magic operation with T states only. */
  function AllTCount(n: MagicStateCount): int {
    n.tCount + 4 * n.cczCount
  }

  /** The all-T count adds up over the parts of a computation, and one Toffoli costs as
      much as four T operations. */
  lemma AllTCountAdditive(a: MagicStateCount, b: MagicStateCount)
    ensures AllTCount(MagicStateCount(a.tCount + b.tCount, a.cczCount + b.cczCount)) == AllTCount(a) + AllTCount(b)
    ensures AllTCount(MagicStateCount(0, 1)) == AllTCount(MagicStateCount(4, 0)) == 4
    ensures a.cczCount == 0 ==> AllTCount(a) == a.tCount
  {
  }

  /** How a multi-level factory re-uses its resources between levels. */
  datatype ReUse = Space | Time

  datatype FactoryError =
    | BadReUse        // the ValueError of MultiLevelFactory.__init__
    | NoLevels        // max() of an empty sequence
    | ZeroFactories   // ZeroDivisionError in NFactories.n_cycles

  /** The `re_use` argument of MultiLevelFactory: only 'space' and 'time' are accepted. */
  function ParseReUse(s: string): (r: Result<ReUse, FactoryError>)
    ensures r.Ok? <==> s == "space" || s == "time"
    ensures r.Ok? ==> (r.value == Space <==> s == "space")
    ensures r.Err? ==> r.error == BadReUse
  {
    if s == "space" then Ok(Space) else if s == "time" then Ok(Time) else Err(BadReUse)
  }

  /** A factory: a base factory with a fixed footprint and a cycle count per request,
      `NFactories(factory, n)`, or `MultiLevelFactory(levels, re_use)`. */
  datatype Factory =
    | Base(fp: int, cycles: MagicStateCount -> int)
    | NFactories(factory: Factory, n: int)
    | MultiLevel(levels: seq<Factory>, reUse: ReUse)

  /** `MultiLevelFactory(factories, re_use)`. */
  function MakeMultiLevel(levels: seq<Factory>, reUse: string): (r: Result<Factory, FactoryError>)
    ensures r.Ok? <==> reUse == "space" || reUse == "time"
    ensures r.Ok? ==> r.value.MultiLevel? && r.value.levels == levels
  {
    var p := ParseReUse(reUse);
    if p.Err? then Err(p.error) else Ok(MultiLevel(levels, p.value))
  }

  /** `math.ceil(c / n)` on integers. */
  function CeilDiv(c: int, n: int): (r: int)
    requires n != 0
  {
    -PyInt.FloorDiv(-c, n)
  }

  /** With n > 0 factories, the ceiling is the fewest rounds r with r·n >= c. */
  lemma CeilDivFewest(c: int, n: int)
    requires n > 0
    ensures CeilDiv(c, n) * n >= c
    ensures (CeilDiv(c, n) - 1) * n < c
  {
    var q := PyInt.FloorDiv(-c, n);
    assert q * n <= -c < q * n + n;
    assert CeilDiv(c, n) * n == -(q * n);
    assert (CeilDiv(c, n) - 1) * n == -(q * n) - n;
  }

  /** The values of a list of results, or the first error, as a generator expression
      that evaluates its items in order. */
  function Collect(rs: seq<Result<int, FactoryError>>): (r: Result<seq<int>, FactoryError>)
    ensures r.Ok? <==> forall i | 0 <= i < |rs| :: rs[i].Ok?
    ensures r.Ok? ==> |r.value| == |rs| && forall i | 0 <= i < |rs| :: rs[i] == Ok(r.value[i])
    ensures r.Err? ==> exists i | 0 <= i < |rs| :: rs[i] == Err(r.error)
  {
    if rs == [] then Ok([])
    else if rs[0].Err? then Err(rs[0].error)
    else
      var rest := Collect(rs[1..]);
      if rest.Err? then
        assert forall i | 0 <= i < |rs| - 1 :: rs[1..][i] == rs[i + 1];
        Err(rest.error)
      else Ok([rs[0].value] + rest.value)
  }

  /** max() of a non-empty list. */
  function Max(s: seq<int>): (r: int)
    requires |s| > 0
    ensures forall i | 0 <= i < |s| :: s[i] <= r
    ensures exists i | 0 <= i < |s| :: s[i] == r
  {
    if |s| == 1 then s[0]
    else
      var m := Max(s[1..]);
      assert forall i | 1 <= i < |s| :: s[i] == s[1..][i - 1];
      if s[0] >= m then s[0] else m
  }

  /** sum() of a list. */
  function Sum(s: seq<int>): int {
    if s == [] then 0 else s[0] + Sum(s[1..])
  }

  /** The sum of non-negative values bounds every one of them. */
  lemma {:induction false} SumBoundsEach(s: seq<int>, i: nat)
    requires forall j | 0 <= j < |s| :: s[j] >= 0
    requires i < |s|
    ensures s[i] <= Sum(s)
  {
    assert forall j | 0 <= j < |s| - 1 :: s[1..][j] == s[j + 1];
    if i == 0 {
      SumNonnegative(s[1..]);
    } else {
      SumBoundsEach(s[1..], i - 1);
    }
  }

  lemma {:induction false} SumNonnegative(s: seq<int>)
    requires forall j | 0 <= j < |s| :: s[j] >= 0
    ensures Sum(s) >= 0
  {
    if s != [] {
      assert forall j | 0 <= j < |s| - 1 :: s[1..][j] == s[j + 1];
      SumNonnegative(s[1..]);
    }
  }

  /** max() over the levels when the resource is re-used, sum() otherwise; no levels at
      all is an error for max(). */
  function CombineLevels(useMax: bool, rs: seq<Result<int, FactoryError>>): (r: Result<int, FactoryError>)
  {
    var vals := Collect(rs);
    if vals.Err? then Err(vals.error)
    else if useMax then (if vals.value == [] then Err(NoLevels) else Ok(Max(vals.value)))
    else Ok(Sum(vals.value))
  }

  /** The number of physical qubits a factory takes up (`footprint`). */
  function Footprint(f: Factory): Result<int, FactoryError>
    decreases f
  {
    match f
    case Base(fp, _) => Ok(fp)
    case NFactories(g, n) =>
      var x := Footprint(g);
      if x.Err? then x else Ok(n * x.value)
    case MultiLevel(levels, reUse) =>
      CombineLevels(reUse == Space, seq(|levels|, i requires 0 <= i < |levels| => Footprint(levels[i])))
  }

  /** The number of cycles a factory needs to produce the requested magic states
      (`n_cycles`). */
  function NCycles(f: Factory, m: MagicStateCount): Result<int, FactoryError>
    decreases f
  {
    match f
    case Base(_, cycles) => Ok(cycles(m))
    case NFactories(g, n) =>
      var x := NCycles(g, m);
      if x.Err? then x else if n == 0 then Err(ZeroFactories) else Ok(CeilDiv(x.value, n))
    case MultiLevel(levels, reUse) =>
      CombineLevels(reUse == Time, seq(|levels|, i requires 0 <= i < |levels| => NCycles(levels[i], m)))
  }

  /** N copies take N times the qubits, and together need the fewest whole rounds in which
      N factories cover the cycles of one. */
  lemma NFactoriesCosts(g: Factory, n: int, m: MagicStateCount)
    requires Footprint(g).Ok? && NCycles(g, m).Ok?
    ensures Footprint(NFactories(g, n)) == Ok(n * Footprint(g).value)
    ensures n == 0 <==> NCycles(NFactories(g, n), m).Err?
    ensures n > 0 ==>
      var c, r := NCycles(g, m).value, NCycles(NFactories(g, n), m).value;
      r * n >= c && (r - 1) * n < c
  {
    if n > 0 {
      CeilDivFewest(NCycles(g, m).value, n);
    }
  }

  /** Results of the levels of a multi-level factory: footprints and cycles. */
  function LevelFootprints(levels: seq<Factory>): seq<Result<int, FactoryError>> {
    seq(|levels|, i requires 0 <= i < |levels| => Footprint(levels[i]))
  }

  function LevelCycles(levels: seq<Factory>, m: MagicStateCount): seq<Result<int, FactoryError>> {
    seq(|levels|, i requires 0 <= i < |levels| => NCycles(levels[i], m))
  }

  /** When the levels re-use space, the factory is as large as its largest level and takes
      as long as all levels one after another; re-using time is the reverse.  A level's
      error is the factory's, and so is having no level to take the max of. */
  lemma MultiLevelCosts(levels: seq<Factory>, reUse: ReUse, m: MagicStateCount)
    ensures var fp, fs := Footprint(MultiLevel(levels, reUse)), LevelFootprints(levels);
      && (fp.Ok? <==> (forall i | 0 <= i < |levels| :: fs[i].Ok?) && (reUse == Space ==> |levels| > 0))
      && (fp.Ok? && reUse == Space ==>
            (forall i | 0 <= i < |levels| :: fs[i].value <= fp.value)
            && exists i | 0 <= i < |levels| :: fs[i].value == fp.value)
      && (fp.Ok? && reUse == Time ==> fp.value == Sum(Collect(fs).value))
    ensures var nc, cs := NCycles(MultiLevel(levels, reUse), m), LevelCycles(levels, m);
      && (nc.Ok? <==> (forall i | 0 <= i < |levels| :: cs[i].Ok?) && (reUse == Time ==> |levels| > 0))
      && (nc.Ok? && reUse == Time ==>
            (forall i | 0 <= i < |levels| :: cs[i].value <= nc.value)
            && exists i | 0 <= i < |levels| :: cs[i].value == nc.value)
      && (nc.Ok? && reUse == Space ==> nc.value == Sum(Collect(cs).value))
  {
    assert Footprint(MultiLevel(levels, reUse)) == CombineLevels(reUse == Space, LevelFootprints(levels));
    assert NCycles(MultiLevel(levels, reUse), m) == CombineLevels(reUse == Time, LevelCycles(levels, m));
  }

  /** With non-negative footprints, re-using space never takes more qubits than
      re-using time. */
  lemma SpaceReUseSmaller(levels: seq<Factory>)
    requires forall i | 0 <= i < |levels| :: Footprint(levels[i]).Ok? && Footprint(levels[i]).value >= 0
    requires |levels| > 0
    ensures Footprint(MultiLevel(levels, Space)).Ok? && Footprint(MultiLevel(levels, Time)).Ok?
    ensures Footprint(MultiLevel(levels, Space)).value <= Footprint(MultiLevel(levels, Time)).value
  {
    MultiLevelCosts(levels, Space, MagicStateCount(0, 0));
    MultiLevelCosts(levels, Time, MagicStateCount(0, 0));
    var fs := LevelFootprints(levels);
    var vals := Collect(fs).value;
    var i :| 0 <= i < |levels| && fs[i].value == Footprint(MultiLevel(levels, Space)).value;
    assert fs[i] == Ok(vals[i]);
    SumBoundsEach(vals, i);
  }
}
