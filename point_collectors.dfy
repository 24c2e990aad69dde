// Point collectors of the rotation-synthesis search (qualtran/rotation_synthesis/protocols/
// protocol.py): they receive lattice points (p, q, n) found inside the search region, decide
// when the search may stop, and turn the accepted points into unitary channels.

module PointCollectors {
  import ZOmegaRing
  import PyStr

  /** A point received from the search: the pair (p, q) over Z[ω] and the exponent n. */
  datatype Point = Point(p: ZOmegaRing.ZW, q: ZOmegaRing.ZW, n: int)

  /** `channels.UnitaryChannel(p, q, n)` with its default `twirl=False`. */
  datatype Channel = UnitaryChannel(p: ZOmegaRing.ZW, q: ZOmegaRing.ZW, n: int, twirl: bool)

  function ToChannel(x: Point): Channel {
    UnitaryChannel(x.p, x.q, x.n, false)
  }

  /** One channel per point, in order. */
  function Channels(points: seq<Point>): (r: seq<Channel>)
    ensures |r| == |points|
    ensures forall i | 0 <= i < |r| :: r[i] == UnitaryChannel(points[i].p, points[i].q, points[i].n, false)
  {
    seq(|points|, i requires 0 <= i < |points| => ToChannel(points[i]))
  }

  // ---------------------------------------------------------------------------------
  // SimplePointCollector

  /** The status line of SimplePointCollector: `have=<count> need=<target>`. */
  function SimpleStatus(have: nat, need: int): string {
    "have=" + PyStr.Str(have) + " need=" + PyStr.Str(need)
  }

  /** The status line names both numbers unambiguously: two collectors with the same line
      have the same number of points and the same target. */
  lemma {:induction false} SimpleStatusInjective(have1: nat, need1: int, have2: nat, need2: int)
    requires SimpleStatus(have1, need1) == SimpleStatus(have2, need2)
    ensures have1 == have2 && need1 == need2
  {
    var s1, s2 := SimpleStatus(have1, need1), SimpleStatus(have2, need2);
    var d1, d2 := PyStr.Str(have1), PyStr.Str(have2);
    // Position 5 + |d| holds the first space: the digits before it hold none.
    assert s1[5 + |d1|] == ' ' && s2[5 + |d2|] == ' ';
    assert forall k | 5 <= k < 5 + |d1| :: s1[k] == d1[k - 5] != ' ';
    assert forall k | 5 <= k < 5 + |d2| :: s2[k] == d2[k - 5] != ' ';
    assert s1[5 + |d2|] == ' ' && s2[5 + |d1|] == ' ';
    assert |d1| == |d2|;
    assert d1 == s1[5..5 + |d1|] && d2 == s2[5..5 + |d2|];
    PyStr.StrInjective(have1, have2);
    assert PyStr.Str(need1) == s1[11 + |d1|..] && PyStr.Str(need2) == s2[11 + |d2|..];
    PyStr.StrInjective(need1, need2);
  }

  /** `SimplePointCollector(target_count)`: accepts the first target_count points. */
  class SimplePointCollector {
    var points: seq<Point>
    const targetCount: int

    constructor(targetCount: int)
      ensures this.points == [] && this.targetCount == targetCount
    {
      this.points := [];
      this.targetCount := targetCount;
    }

    /** `add_point(p, q, n, config)`: appends the point and changes nothing else. */
    method AddPoint(p: ZOmegaRing.ZW, q: ZOmegaRing.ZW, n: int)
      modifies this
      ensures points == old(points) + [Point(p, q, n)]
      ensures old(IsDone()) ==> IsDone()
    {
      points := points + [Point(p, q, n)];
    }

    /** `is_done()`. */
    predicate IsDone()
      reads this
    {
      |points| >= targetCount
    }

    /** `result()`: one unitary channel per point, in the order received. */
    function Result(): (r: seq<Channel>)
      reads this
      ensures |r| == |points| && forall i | 0 <= i < |r| :: r[i] == ToChannel(points[i])
    {
      Channels(points)
    }

    /** `status()`. */
    function Status(): string
      reads this
    {
      SimpleStatus(|points|, targetCount)
    }
  }

  // ---------------------------------------------------------------------------------
  // SplitRegionCollector

  datatype Target = LeftSide | RightSide

  /** Where `add_point` puts a point whose value ax + by - c is `side`: a positive value to
      the left, a negative one to the right, and a value on the line to the left exactly
      when the left has fewer points. */
  function Route(side: real, nLeft: nat, nRight: nat): (t: Target)
    ensures side > 0.0 ==> t == LeftSide
    ensures side < 0.0 ==> t == RightSide
    ensures side == 0.0 ==> (t == LeftSide <==> nLeft < nRight)
  {
    if side > 0.0 then LeftSide
    else if side < 0.0 then RightSide
    else if nLeft < nRight then LeftSide
    else RightSide
  }

  /** Points on the splitting line never unbalance the two sides: if the counts differ by at
      most one, they still do after a point on the line, which goes to the shorter side (to
      the right when they are even). */
  lemma {:induction false} TieKeepsBalance(nLeft: nat, nRight: nat)
    requires nLeft <= nRight + 1 && nRight <= nLeft + 1
    ensures var t := Route(0.0, nLeft, nRight);
      var l := if t == LeftSide then nLeft + 1 else nLeft;
      var r := if t == RightSide then nRight + 1 else nRight;
      && l <= r + 1 && r <= l + 1
      && (nLeft == nRight ==> r == nRight + 1)
      && (l + r == nLeft + nRight + 1)
  {
  }

  function Min(a: int, b: int): int {
    if a <= b then a else b
  }

  /** `is_done()` on the two counts. */
  predicate SplitDone(nLeft: nat, nRight: nat, target: int) {
    Min(nLeft, nRight) >= target
  }

  /** `status()` on the two counts. */
  function SplitStatus(nLeft: nat, nRight: nat, target: int): string {
    var leftIncomplete := nLeft < target;
    var rightIncomplete := nRight < target;
    if leftIncomplete && rightIncomplete then "empty"
    else if leftIncomplete then "waiting left"
    else if rightIncomplete then "waiting right"
    else "ready"
  }

  /** The status names which sides still lack points, and it is "ready" exactly when the
      collector is done. */
  lemma {:induction false} SplitStatusSpec(nLeft: nat, nRight: nat, target: int)
    ensures SplitStatus(nLeft, nRight, target) == "ready" <==> SplitDone(nLeft, nRight, target)
    ensures SplitStatus(nLeft, nRight, target) == "empty" <==> nLeft < target && nRight < target
    ensures SplitStatus(nLeft, nRight, target) == "waiting left" <==> nLeft < target <= nRight
    ensures SplitStatus(nLeft, nRight, target) == "waiting right" <==> nRight < target <= nLeft
  {
    var s := SplitStatus(nLeft, nRight, target);
    assert "ready" != "empty" && "ready" != "waiting left" && "ready" != "waiting right";
    assert "empty" != "waiting left" && "empty" != "waiting right";
    assert "waiting left" != "waiting right" by {
      assert "waiting left"[8] != "waiting right"[8];
    }
  }

  /** `SplitRegionCollector(splitter_line, target_count)`: sorts points by the side of the
      splitting line they lie on and is done once each side has target_count of them.  The
      line itself enters only through the side value of each point. */
  class SplitRegionCollector {
    var left: seq<Point>
    var right: seq<Point>
    const targetCount: int

    constructor(targetCount: int)
      ensures left == [] && right == [] && this.targetCount == targetCount
    {
      left := [];
      right := [];
      this.targetCount := targetCount;
    }

    /** `add_point(p, q, n, config)`, given `side` = `_evaluate(p, n, config)`: the point
        joins the side Route chooses and the other side is unchanged. */
    method AddPoint(p: ZOmegaRing.ZW, q: ZOmegaRing.ZW, n: int, side: real)
      modifies this
      ensures Route(side, |old(left)|, |old(right)|) == LeftSide ==>
        left == old(left) + [Point(p, q, n)] && right == old(right)
      ensures Route(side, |old(left)|, |old(right)|) == RightSide ==>
        right == old(right) + [Point(p, q, n)] && left == old(left)
      ensures old(IsDone()) ==> IsDone()
    {
      if Route(side, |left|, |right|) == LeftSide {
        left := left + [Point(p, q, n)];
      } else {
        right := right + [Point(p, q, n)];
      }
    }

    /** `is_done()`. */
    predicate IsDone()
      reads this
    {
      SplitDone(|left|, |right|, targetCount)
    }

    /** `result()`: the channels of the left points and those of the right points. */
    function Result(): (r: (seq<Channel>, seq<Channel>))
      reads this
      ensures r.0 == Channels(left) && r.1 == Channels(right)
    {
      (Channels(left), Channels(right))
    }

    /** `status()`. */
    function Status(): string
      reads this
    {
      SplitStatus(|left|, |right|, targetCount)
    }
  }
}
