/**
 * Scaled grid operators (qualtran/rotation_synthesis/lattice/grid_operators.py): 2x2 matrices
 * over Z[sqrt 2] standing for sqrt(2) times a grid operator in the sense of section 5.3 of
 * Ross and Selinger, "Optimal ancilla-free Clifford+T approximation of z-rotations"
 * (arXiv:1403.2975).  The product divides by sqrt(2) to keep that scaling; powers, the
 * shift, the sqrt(2)-conjugate, the scaled inverse and the action on points of Z[w] follow.
 */
module GridOperators {
  import opened Wrappers
  import Z2 = ZSqrt2Ring
  import ZW = ZOmegaRing
  import Monoid
  import PyInt

  type ZSqrt2 = Z2.ZSqrt2

  /** The matrix [[a, b], [c, d]]. */
  datatype GridOp = GridOp(a: ZSqrt2, b: ZSqrt2, c: ZSqrt2, d: ZSqrt2)

  function Entry(g: GridOp, i: nat, j: nat): ZSqrt2
    requires i < 2 && j < 2
  {
    if i == 0 then (if j == 0 then g.a else g.b) else (if j == 0 then g.c else g.d)
  }

  /** The check of `__attrs_post_init__`: the integer parts sum to an even number and so do
      the sqrt(2) parts.  Every GridOperator object satisfies it. */
  predicate PostInit(g: GridOp) {
    && (g.a.a + g.b.a + g.c.a + g.d.a) % 2 == 0
    && (g.a.b + g.b.b + g.c.b + g.d.b) % 2 == 0
  }

  /** `GridOperator(matrix)`: None is the AssertionError of the post-init check. */
  function MakeGridOp(a: ZSqrt2, b: ZSqrt2, c: ZSqrt2, d: ZSqrt2): (r: Option<GridOp>)
    ensures r.Some? <==> PostInit(GridOp(a, b, c, d))
    ensures r.Some? ==> r.value == GridOp(a, b, c, d)
  {
    if PostInit(GridOp(a, b, c, d)) then Some(GridOp(a, b, c, d)) else None
  }

  /** A scaled grid operator as the paper defines it: writing each entry as x' + x*sqrt(2)
      (x' the integer part), the four integer parts have one parity and the four sqrt(2)
      parts sum to an even number. */
  predicate IsGridOp(g: GridOp) {
    && g.a.a % 2 == g.b.a % 2 == g.c.a % 2 == g.d.a % 2
    && (g.a.b + g.b.b + g.c.b + g.d.b) % 2 == 0
  }

  lemma GridOpPassesPostInit(g: GridOp)
    requires IsGridOp(g)
    ensures PostInit(g)
  {
    var p := g.a.a % 2;
    assert g.a.a + g.b.a + g.c.a + g.d.a
        == 2 * (g.a.a / 2 + g.b.a / 2 + g.c.a / 2 + g.d.a / 2) + 4 * p;
  }

  // ---------------------------------------------------------------------------------
  // Products

  /** The unscaled matrix product `self.matrix @ other.matrix`. */
  function Raw(g: GridOp, h: GridOp): GridOp {
    GridOp(Z2.Lin(g.a, h.a, g.b, h.c), Z2.Lin(g.a, h.b, g.b, h.d),
           Z2.Lin(g.c, h.a, g.d, h.c), Z2.Lin(g.c, h.b, g.d, h.d))
  }

  /** Every entry times sqrt(2). */
  function Scaled(g: GridOp): GridOp {
    GridOp(Z2.Mul(g.a, Z2.Sqrt2), Z2.Mul(g.b, Z2.Sqrt2), Z2.Mul(g.c, Z2.Sqrt2), Z2.Mul(g.d, Z2.Sqrt2))
  }

  /** `g @ h`: the product with each entry divided by sqrt(2); None when an entry has an odd
      integer part (the ValueError of `divide_by_sqrt2`) or the result fails the post-init
      check. */
  function Compose(g: GridOp, h: GridOp): Option<GridOp> {
    var r := Raw(g, h);
    match (Z2.DivideBySqrt2(r.a), Z2.DivideBySqrt2(r.b), Z2.DivideBySqrt2(r.c), Z2.DivideBySqrt2(r.d))
    case (Some(p), Some(q), Some(s), Some(t)) => MakeGridOp(p, q, s, t)
    case _ => None
  }

  /** Dividing by sqrt(2) succeeds with y exactly when y times sqrt(2) is x. */
  lemma DivideChar(x: ZSqrt2, y: ZSqrt2)
    ensures Z2.DivideBySqrt2(x) == Some(y) <==> Z2.Mul(y, Z2.Sqrt2) == x
  {}

  /** The product is q exactly when q times sqrt(2) is the unscaled product and q passes the
      post-init check. */
  lemma ComposeSpec(g: GridOp, h: GridOp, q: GridOp)
    ensures Compose(g, h) == Some(q) <==> Scaled(q) == Raw(g, h) && PostInit(q)
  {
    var r := Raw(g, h);
    DivideChar(r.a, q.a);
    DivideChar(r.b, q.b);
    DivideChar(r.c, q.c);
    DivideChar(r.d, q.d);
  }

  /** The four cells of a 2x2 array, row-major. */
  function Cells(res: array2<ZSqrt2>): GridOp
    reads res
    requires res.Length0 == 2 && res.Length1 == 2
  {
    GridOp(res[0, 0], res[0, 1], res[1, 0], res[1, 1])
  }

  /** The matrix with the entry at row-major position n replaced by v. */
  function SetEntry(m: GridOp, n: nat, v: ZSqrt2): GridOp
    requires n < 4
  {
    if n == 0 then m.(a := v) else if n == 1 then m.(b := v) else if n == 2 then m.(c := v) else m.(d := v)
  }

  /** Entries before row-major position n are divided by sqrt(2), the others are unscaled. */
  ghost predicate Divided(m: GridOp, raw: GridOp, n: nat) {
    && (if 0 < n then Z2.Mul(m.a, Z2.Sqrt2) == raw.a else m.a == raw.a)
    && (if 1 < n then Z2.Mul(m.b, Z2.Sqrt2) == raw.b else m.b == raw.b)
    && (if 2 < n then Z2.Mul(m.c, Z2.Sqrt2) == raw.c else m.c == raw.c)
    && (if 3 < n then Z2.Mul(m.d, Z2.Sqrt2) == raw.d else m.d == raw.d)
  }

  lemma DividedStep(m: GridOp, raw: GridOp, i: nat, j: nat, v: ZSqrt2)
    requires i < 2 && j < 2 && Divided(m, raw, 2 * i + j)
    requires Z2.DivideBySqrt2(Entry(m, i, j)) == Some(v)
    ensures Divided(SetEntry(m, 2 * i + j, v), raw, 2 * i + j + 1)
  {
    DivideChar(Entry(m, i, j), v);
  }

  /** `__matmul__`: the unscaled product in an array, each cell divided by sqrt(2) in place. */
  method MatMul(g: GridOp, h: GridOp) returns (r: Option<GridOp>)
    ensures r == Compose(g, h)
  {
    var raw := Raw(g, h);
    var res := new ZSqrt2[2, 2]((i, j) requires 0 <= i < 2 && 0 <= j < 2 => Entry(raw, i, j));
    assert Cells(res) == raw;
    for i := 0 to 2
      invariant Divided(Cells(res), raw, 2 * i)
    {
      for j := 0 to 2
        invariant Divided(Cells(res), raw, 2 * i + j)
      {
        ghost var m := Cells(res);
        assert Entry(m, i, j) == res[i, j];
        var q := Z2.DivideBySqrt2(res[i, j]);
        if q.None? {
          NoQuotient(g, h, m, i, j);
          return None;
        }
        DividedStep(m, raw, i, j, q.value);
        res[i, j] := q.value;
        assert Cells(res) == SetEntry(m, 2 * i + j, q.value);
      }
    }
    var m := Cells(res);
    r := MakeGridOp(m.a, m.b, m.c, m.d);
    if PostInit(m) {
      ComposeSpec(g, h, m);
    } else {
      NoneWhenRejected(g, h, m);
    }
  }

  /** An entry of the unscaled product with no quotient makes the product fail. */
  lemma NoQuotient(g: GridOp, h: GridOp, m: GridOp, i: nat, j: nat)
    requires i < 2 && j < 2 && Divided(m, Raw(g, h), 2 * i + j)
    requires Z2.DivideBySqrt2(Entry(m, i, j)).None?
    ensures Compose(g, h) == None
  {}

  /** When the quotients are q but q fails the post-init check, the product fails. */
  lemma NoneWhenRejected(g: GridOp, h: GridOp, q: GridOp)
    requires Scaled(q) == Raw(g, h) && !PostInit(q)
    ensures Compose(g, h) == None
  {
    var r := Raw(g, h);
    DivideChar(r.a, q.a);
    DivideChar(r.b, q.b);
    DivideChar(r.c, q.c);
    DivideChar(r.d, q.d);
  }

  // ---------------------------------------------------------------------------------
  // Closure

  /** The quotient by sqrt(2) of an element whose integer part is even. */
  function Half(x: ZSqrt2): ZSqrt2 { Z2.ZSqrt2(x.b, x.a / 2) }

  /** The product of two grid operators: the unscaled product with every entry divided. */
  function Dot(g: GridOp, h: GridOp): GridOp {
    var r := Raw(g, h);
    GridOp(Half(r.a), Half(r.b), Half(r.c), Half(r.d))
  }

  /** (2k + p)(2m + q) expanded. */
  lemma Prod(x: int, k: int, p: int, y: int, m: int, q: int)
    requires x == 2 * k + p && y == 2 * m + q
    ensures x * y == 2 * (2 * (k * m) + k * q + p * m) + p * q
  {}

  /** (2k + p)y expanded. */
  lemma ProdLeft(x: int, k: int, p: int, y: int)
    requires x == 2 * k + p
    ensures x * y == 2 * (k * y) + p * y
  {}

  /** (x1 + x2)(y1 + y2) expanded, for two even sums. */
  lemma ProdEvenSums(x1: int, x2: int, y1: int, y2: int, al: int, be: int)
    requires x1 + x2 == 2 * al && y1 + y2 == 2 * be
    ensures x1 * y1 + x1 * y2 + x2 * y1 + x2 * y2 == 4 * (al * be)
  {
    assert x1 * y1 + x1 * y2 + x2 * y1 + x2 * y2 == (x1 + x2) * (y1 + y2);
  }

  /** s*r + t*k is even when s + t and r + k are. */
  lemma CrossEven(s: int, t: int, r: int, k: int, m: int, n: int)
    requires s + t == 2 * m && r + k == 2 * n
    ensures s * r + t * k == 2 * (s * r + 2 * (m * n) - m * r - n * s)
  {
    var t', k' := 2 * m - s, 2 * n - r;
    assert t == t' && k == k';
    assert t' * k' == 4 * (m * n) - 2 * (m * r) - 2 * (n * s) + s * r;
  }

  /** p(x1 + x2) and p(y1 + y2) differ by an even number when x1 + x2 and y1 + y2 do. */
  lemma ScaleEven(p: int, x1: int, x2: int, y1: int, y2: int, e: int)
    requires x1 + x2 - y1 - y2 == 2 * e
    ensures p * x1 + p * x2 - p * y1 - p * y2 == 2 * (p * e)
  {
    assert p * x1 + p * x2 - p * y1 - p * y2 == p * (x1 + x2 - y1 - y2);
  }

  /** One entry u0*w0 + u1*w1 of a product whose row has integer parts of parity p and whose
      column has integer parts of parity q: its integer part is even, and its sqrt(2) part
      has the parity of p(w0.b + w1.b) + q(u0.b + u1.b). */
  lemma {:induction false} EntryParity(u0: ZSqrt2, u1: ZSqrt2, w0: ZSqrt2, w1: ZSqrt2, p: int, q: int)
      returns (k: int, m: int)
    requires u0.a % 2 == p && u1.a % 2 == p && w0.a % 2 == q && w1.a % 2 == q
    ensures Z2.Lin(u0, w0, u1, w1).a == 2 * k
    ensures Z2.Lin(u0, w0, u1, w1).b == p * w0.b + p * w1.b + q * u0.b + q * u1.b + 2 * m
  {
    var l := Z2.Lin(u0, w0, u1, w1);
    var s0, s1, t0, t1 := u0.a / 2, u1.a / 2, w0.a / 2, w1.a / 2;
    Prod(u0.a, s0, p, w0.a, t0, q);
    Prod(u1.a, s1, p, w1.a, t1, q);
    ProdLeft(u0.a, s0, p, w0.b);
    ProdLeft(u1.a, s1, p, w1.b);
    ProdLeft(w0.a, t0, q, u0.b);
    ProdLeft(w1.a, t1, q, u1.b);
    k := 2 * (s0 * t0) + s0 * q + p * t0 + 2 * (s1 * t1) + s1 * q + p * t1 + p * q
         + u0.b * w0.b + u1.b * w1.b;
    m := s0 * w0.b + s1 * w1.b + t0 * u0.b + t1 * u1.b;
    assert l.a == u0.a * w0.a + 2 * (u0.b * w0.b) + u1.a * w1.a + 2 * (u1.b * w1.b);
    assert l.b == u0.a * w0.b + w0.a * u0.b + u1.a * w1.b + w1.a * u1.b;
  }

  /** Two numbers of one parity have an even sum. */
  lemma EvenSum(x: int, y: int) returns (k: int)
    requires x % 2 == y % 2
    ensures x + y == 2 * k
  {
    k := (x + y) / 2;
  }

  /** Four numbers with an even sum split into two pairs whose sums differ by an even number. */
  lemma EvenDifference(x1: int, x2: int, y1: int, y2: int) returns (e: int)
    requires (x1 + x2 + y1 + y2) % 2 == 0
    ensures x1 + x2 - y1 - y2 == 2 * e
  {
    e := (x1 + x2 - y1 - y2) / 2;
  }

  lemma SameParity(x: int, y: int, z: int)
    requires x - y == 2 * z
    ensures x % 2 == y % 2
  {}

  /** With g = [[A, B], [C, D]] and h = [[E, F], [G, H]] grid operators, the integer parts of
      the unscaled product sum to a multiple of 4. */
  lemma {:induction false} RawSumMod4(g: GridOp, h: GridOp) returns (w: int)
    requires IsGridOp(g) && IsGridOp(h)
    ensures var r := Raw(g, h); r.a.a + r.b.a + r.c.a + r.d.a == 4 * w
  {
    var al := EvenSum(g.a.a, g.c.a);
    var be := EvenSum(h.a.a, h.b.a);
    var ga := EvenSum(g.b.a, g.d.a);
    var de := EvenSum(h.c.a, h.d.a);
    var si, ta, rh, ka := g.a.b + g.c.b, g.b.b + g.d.b, h.a.b + h.b.b, h.c.b + h.d.b;
    var m := EvenSum(si, ta);
    var n := EvenSum(rh, ka);
    RawSumExpand(g, h);
    ProdEvenSums(g.a.a, g.c.a, h.a.a, h.b.a, al, be);
    ProdEvenSums(g.b.a, g.d.a, h.c.a, h.d.a, ga, de);
    Distrib(g.a.b, g.c.b, h.a.b, h.b.b);
    Distrib(g.b.b, g.d.b, h.c.b, h.d.b);
    CrossEven(si, ta, rh, ka, m, n);
    w := al * be + ga * de + (si * rh + 2 * (m * n) - m * rh - n * si);
  }

  /** The integer parts of the unscaled product, written out. */
  lemma RawSumExpand(g: GridOp, h: GridOp)
    ensures var r := Raw(g, h);
      r.a.a + r.b.a + r.c.a + r.d.a
      == (g.a.a * h.a.a + g.a.a * h.b.a + g.c.a * h.a.a + g.c.a * h.b.a)
       + (g.b.a * h.c.a + g.b.a * h.d.a + g.d.a * h.c.a + g.d.a * h.d.a)
       + 2 * (g.a.b * h.a.b + g.a.b * h.b.b + g.c.b * h.a.b + g.c.b * h.b.b)
       + 2 * (g.b.b * h.c.b + g.b.b * h.d.b + g.d.b * h.c.b + g.d.b * h.d.b)
  {}

  lemma Distrib(x1: int, x2: int, y1: int, y2: int)
    ensures (x1 + x2) * (y1 + y2) == x1 * y1 + x1 * y2 + x2 * y1 + x2 * y2
  {}

  /** The entries of the unscaled product of two grid operators have even integer parts,
      and their sqrt(2) parts have one parity. */
  lemma {:induction false} RawParity(g: GridOp, h: GridOp) returns (k: GridOp)
    requires IsGridOp(g) && IsGridOp(h)
    ensures var r := Raw(g, h);
      && r.a.a == 2 * k.a.a && r.b.a == 2 * k.b.a && r.c.a == 2 * k.c.a && r.d.a == 2 * k.d.a
      && r.a.b % 2 == r.b.b % 2 == r.c.b % 2 == r.d.b % 2
  {
    var r := Raw(g, h);
    var p, q := g.a.a % 2, h.a.a % 2;
    var k00, m00 := EntryParity(g.a, g.b, h.a, h.c, p, q);
    var k01, m01 := EntryParity(g.a, g.b, h.b, h.d, p, q);
    var k10, m10 := EntryParity(g.c, g.d, h.a, h.c, p, q);
    var k11, m11 := EntryParity(g.c, g.d, h.b, h.d, p, q);
    k := GridOp(Z2.ZSqrt2(k00, 0), Z2.ZSqrt2(k01, 0), Z2.ZSqrt2(k10, 0), Z2.ZSqrt2(k11, 0));
    // Columns of h, and rows of g, have sqrt(2) parts with equal sums modulo 2.
    var e := EvenDifference(h.a.b, h.c.b, h.b.b, h.d.b);
    ScaleEven(p, h.a.b, h.c.b, h.b.b, h.d.b, e);
    var f := EvenDifference(g.a.b, g.b.b, g.c.b, g.d.b);
    ScaleEven(q, g.a.b, g.b.b, g.c.b, g.d.b, f);
    SameParity(r.a.b, r.b.b, p * e + m00 - m01);
    SameParity(r.a.b, r.c.b, q * f + m00 - m10);
    SameParity(r.a.b, r.d.b, p * e + q * f + m00 - m11);
  }

  /** Half of an element with an even integer part times sqrt(2) gives it back. */
  lemma HalfScaled(x: ZSqrt2, k: int)
    requires x.a == 2 * k
    ensures Half(x) == Z2.ZSqrt2(x.b, k) && Z2.Mul(Half(x), Z2.Sqrt2) == x
  {}

  /** Grid operators are closed under `@`: the product always exists, is their Dot, and is a
      grid operator again. */
  lemma {:induction false} ComposeClosed(g: GridOp, h: GridOp)
    requires IsGridOp(g) && IsGridOp(h)
    ensures Compose(g, h) == Some(Dot(g, h))
    ensures Scaled(Dot(g, h)) == Raw(g, h)
    ensures IsGridOp(Dot(g, h))
  {
    var r := Raw(g, h);
    var q := Dot(g, h);
    var k := RawParity(g, h);
    var w := RawSumMod4(g, h);
    HalfScaled(r.a, k.a.a);
    HalfScaled(r.b, k.b.a);
    HalfScaled(r.c, k.c.a);
    HalfScaled(r.d, k.d.a);
    assert q.a.b + q.b.b + q.c.b + q.d.b == 2 * w;
    GridOpPassesPostInit(q);
    ComposeSpec(g, h, q);
  }

  // ---------------------------------------------------------------------------------
  // Ring identities on entries

  lemma RightDistrib(x: ZSqrt2, y: ZSqrt2, z: ZSqrt2)
    ensures Z2.Mul(Z2.Add(x, y), z) == Z2.Add(Z2.Mul(x, z), Z2.Mul(y, z))
  {
    Z2.MulComm(Z2.Add(x, y), z);
    Z2.MulAddDistrib(z, x, y);
    Z2.MulComm(z, x);
    Z2.MulComm(z, y);
  }

  /** p(aX + bY) + q(cX + dY) == (pa + qc)X + (pb + qd)Y. */
  lemma LinCompose(p: ZSqrt2, q: ZSqrt2, a: ZSqrt2, b: ZSqrt2, c: ZSqrt2, d: ZSqrt2, x: ZSqrt2, y: ZSqrt2)
    ensures Z2.Lin(p, Z2.Lin(a, x, b, y), q, Z2.Lin(c, x, d, y))
         == Z2.Lin(Z2.Lin(p, a, q, c), x, Z2.Lin(p, b, q, d), y)
  {
    Z2.MulAddDistrib(p, Z2.Mul(a, x), Z2.Mul(b, y));
    Z2.MulAddDistrib(q, Z2.Mul(c, x), Z2.Mul(d, y));
    Z2.MulAssoc(p, a, x);
    Z2.MulAssoc(p, b, y);
    Z2.MulAssoc(q, c, x);
    Z2.MulAssoc(q, d, y);
    RightDistrib(Z2.Mul(p, a), Z2.Mul(q, c), x);
    RightDistrib(Z2.Mul(p, b), Z2.Mul(q, d), y);
  }

  /** Scaling the right-hand factors by sqrt(2) scales the combination. */
  lemma LinScaledRight(u: ZSqrt2, x: ZSqrt2, v: ZSqrt2, y: ZSqrt2)
    ensures Z2.Lin(u, Z2.Mul(x, Z2.Sqrt2), v, Z2.Mul(y, Z2.Sqrt2)) == Z2.Mul(Z2.Lin(u, x, v, y), Z2.Sqrt2)
  {
    Z2.MulAssoc(u, x, Z2.Sqrt2);
    Z2.MulAssoc(v, y, Z2.Sqrt2);
    RightDistrib(Z2.Mul(u, x), Z2.Mul(v, y), Z2.Sqrt2);
  }

  /** Scaling the left-hand factors by sqrt(2) scales the combination. */
  lemma LinScaledLeft(u: ZSqrt2, x: ZSqrt2, v: ZSqrt2, y: ZSqrt2)
    ensures Z2.Lin(Z2.Mul(u, Z2.Sqrt2), x, Z2.Mul(v, Z2.Sqrt2), y) == Z2.Mul(Z2.Lin(u, x, v, y), Z2.Sqrt2)
  {
    Z2.MulComm(u, Z2.Sqrt2);
    Z2.MulComm(v, Z2.Sqrt2);
    Z2.MulAssoc(Z2.Sqrt2, u, x);
    Z2.MulAssoc(Z2.Sqrt2, v, y);
    Z2.MulAddDistrib(Z2.Sqrt2, Z2.Mul(u, x), Z2.Mul(v, y));
    Z2.MulComm(Z2.Sqrt2, Z2.Lin(u, x, v, y));
  }

  /** Multiplication by sqrt(2) is injective. */
  lemma Sqrt2Cancel(x: ZSqrt2, y: ZSqrt2)
    requires Z2.Mul(x, Z2.Sqrt2) == Z2.Mul(y, Z2.Sqrt2)
    ensures x == y
  {}

  lemma ScaledInjective(g: GridOp, h: GridOp)
    requires Scaled(g) == Scaled(h)
    ensures g == h
  {
    Sqrt2Cancel(g.a, h.a);
    Sqrt2Cancel(g.b, h.b);
    Sqrt2Cancel(g.c, h.c);
    Sqrt2Cancel(g.d, h.d);
  }

  /** The unscaled product is associative. */
  lemma RawAssoc(g: GridOp, h: GridOp, k: GridOp)
    ensures Raw(Raw(g, h), k) == Raw(g, Raw(h, k))
  {
    LinCompose(g.a, g.b, h.a, h.b, h.c, h.d, k.a, k.c);
    LinCompose(g.a, g.b, h.a, h.b, h.c, h.d, k.b, k.d);
    LinCompose(g.c, g.d, h.a, h.b, h.c, h.d, k.a, k.c);
    LinCompose(g.c, g.d, h.a, h.b, h.c, h.d, k.b, k.d);
  }

  lemma RawScaled(g: GridOp, h: GridOp)
    ensures Raw(Scaled(g), h) == Scaled(Raw(g, h))
    ensures Raw(g, Scaled(h)) == Scaled(Raw(g, h))
  {
    LinScaledLeft(g.a, h.a, g.b, h.c);
    LinScaledLeft(g.a, h.b, g.b, h.d);
    LinScaledLeft(g.c, h.a, g.d, h.c);
    LinScaledLeft(g.c, h.b, g.d, h.d);
    LinScaledRight(g.a, h.a, g.b, h.c);
    LinScaledRight(g.a, h.b, g.b, h.d);
    LinScaledRight(g.c, h.a, g.d, h.c);
    LinScaledRight(g.c, h.b, g.d, h.d);
  }

  // ---------------------------------------------------------------------------------
  // Identity, associativity and powers

  /** `ISqrt2`: sqrt(2) times the identity. */
  const ISqrt2 := GridOp(Z2.Sqrt2, Z2.Zero, Z2.Zero, Z2.Sqrt2)

  /** ISqrt2 is a grid operator and a two-sided identity for `@` on every GridOperator. */
  lemma {:induction false} ComposeIdentity(g: GridOp)
    requires PostInit(g)
    ensures IsGridOp(ISqrt2)
    ensures Compose(g, ISqrt2) == Some(g) && Compose(ISqrt2, g) == Some(g)
  {
    assert Raw(g, ISqrt2) == Scaled(g);
    assert Raw(ISqrt2, g) == Scaled(g) by {
      Z2.MulComm(Z2.Sqrt2, g.a);
      Z2.MulComm(Z2.Sqrt2, g.b);
      Z2.MulComm(Z2.Sqrt2, g.c);
      Z2.MulComm(Z2.Sqrt2, g.d);
    }
    ComposeSpec(g, ISqrt2, g);
    ComposeSpec(ISqrt2, g, g);
  }

  /** Dot of grid operators agrees with ISqrt2 being the identity. */
  lemma DotIdentity(g: GridOp)
    requires IsGridOp(g)
    ensures Dot(g, ISqrt2) == g && Dot(ISqrt2, g) == g
  {
    GridOpPassesPostInit(g);
    ComposeIdentity(g);
    ComposeClosed(g, ISqrt2);
    ComposeClosed(ISqrt2, g);
  }

  /** `@` is associative on grid operators. */
  lemma {:induction false} DotAssoc(g: GridOp, h: GridOp, k: GridOp)
    requires IsGridOp(g) && IsGridOp(h) && IsGridOp(k)
    ensures Dot(Dot(g, h), k) == Dot(g, Dot(h, k))
  {
    var d1, d2 := Dot(g, h), Dot(h, k);
    ComposeClosed(g, h);
    ComposeClosed(h, k);
    ComposeClosed(d1, k);
    ComposeClosed(g, d2);
    var l, r := Dot(d1, k), Dot(g, d2);
    calc {
      Scaled(Scaled(l));
      Scaled(Raw(d1, k));
      { RawScaled(d1, k); }
      Raw(Scaled(d1), k);
      Raw(Raw(g, h), k);
      { RawAssoc(g, h, k); }
      Raw(g, Raw(h, k));
      Raw(g, Scaled(d2));
      { RawScaled(g, d2); }
      Scaled(Raw(g, d2));
      Scaled(Scaled(r));
    }
    ScaledInjective(Scaled(l), Scaled(r));
    ScaledInjective(l, r);
  }

  lemma DotClosed()
    ensures Monoid.Closed(Dot, IsGridOp)
  {
    forall x, y | IsGridOp(x) && IsGridOp(y)
      ensures IsGridOp(Dot(x, y))
    {
      ComposeClosed(x, y);
    }
  }

  lemma DotLeftUnit()
    ensures Monoid.LeftUnit(Dot, ISqrt2, IsGridOp)
  {
    forall x | IsGridOp(x)
      ensures Dot(ISqrt2, x) == x
    {
      DotIdentity(x);
    }
  }

  lemma DotAssociative()
    ensures Monoid.Associative(Dot, IsGridOp)
  {
    forall x, y, z | IsGridOp(x) && IsGridOp(y) && IsGridOp(z)
      ensures Dot(Dot(x, y), z) == Dot(x, Dot(y, z))
    {
      DotAssoc(x, y, z);
    }
  }

  /** Grid operators under `@` form a monoid with identity ISqrt2. */
  lemma DotMonoid()
    ensures Monoid.IsMonoid(Dot, ISqrt2, IsGridOp)
  {
    ComposeIdentity(ISqrt2);
    DotClosed();
    DotLeftUnit();
    DotAssociative();
  }

  /** n-fold `@`: ISqrt2 for n == 0. */
  function PowSpec(g: GridOp, n: nat): GridOp {
    Monoid.Pow(Dot, ISqrt2, g, n)
  }

  lemma PowGrid(g: GridOp, n: nat)
    requires IsGridOp(g)
    ensures IsGridOp(PowSpec(g, n))
  {
    DotMonoid();
    Monoid.PowClosed(Dot, ISqrt2, IsGridOp, g, n);
  }

  /** Powers add: g^(m+n) == g^m @ g^n. */
  lemma PowAddG(g: GridOp, m: nat, n: nat)
    requires IsGridOp(g)
    ensures PowSpec(g, m + n) == Dot(PowSpec(g, m), PowSpec(g, n))
  {
    DotMonoid();
    Monoid.PowAdd(Dot, ISqrt2, IsGridOp, g, m, n);
  }

  lemma PowOne(g: GridOp)
    requires IsGridOp(g)
    ensures PowSpec(g, 0) == ISqrt2 && PowSpec(g, 1) == g
  {
    DotIdentity(g);
  }

  /** `@` of two powers of a grid operator is defined and adds the exponents. */
  lemma PowCompose(g: GridOp, x: GridOp, y: GridOp, m: nat, n: nat, s: nat)
    requires IsGridOp(g) && x == PowSpec(g, m) && y == PowSpec(g, n) && s == m + n
    ensures Compose(x, y) == Some(PowSpec(g, s))
  {
    PowGrid(g, m);
    PowGrid(g, n);
    DotGrid(x, y);
    PowAddG(g, m, n);
  }

  /** The exponent bookkeeping of one pass: px*e + py is unchanged when e is halved. */
  lemma HalveExponent(k: int, e: int, px: int, py: int)
    requires px * e + py == k && e > 1
    ensures 2 * px * (e / 2) + (if e % 2 == 1 then py + px else py) == k
  {
    var h, b := e / 2, e % 2;
    assert e == 2 * h + b;
    assert px * e == 2 * px * h + px * b;
  }

  lemma ExponentDone(k: int, e: int, px: int, py: int)
    requires px * e + py == k && e == 1
    ensures px + py == k
  {}

  /** `@` of two grid operators is their Dot, which is a grid operator. */
  lemma DotGrid(x: GridOp, y: GridOp)
    requires IsGridOp(x) && IsGridOp(y)
    ensures Compose(x, y) == Some(Dot(x, y)) && IsGridOp(Dot(x, y))
  {
    ComposeClosed(x, y);
  }

  /** `__pow__`: binary exponentiation.  Exponent 0 gives ISqrt2; a negative exponent or 1
      skips the loop and gives g @ ISqrt2, that is g; for a grid operator every exponent from 0
      up gives the n-fold product.  None stands for the ValueError of a failing `@`. */
  method Power(g: GridOp, k: int) returns (r: Option<GridOp>)
    requires PostInit(g)
    ensures k == 0 ==> r == Some(ISqrt2)
    ensures k < 0 || k == 1 ==> r == Some(g)
    ensures IsGridOp(g) && k >= 0 ==> r == Some(PowSpec(g, k))
  {
    if k == 0 {
      return Some(ISqrt2);
    }
    var x, y, e := g, ISqrt2, k;
    ghost var px: nat, py: nat := 1, 0;
    if IsGridOp(g) {
      PowOne(g);
    }
    while e > 1
      invariant IsGridOp(g) && k > 0 ==> x == PowSpec(g, px) && y == PowSpec(g, py)
      invariant px * e + py == k && (k > 0 ==> e >= 1)
      invariant k <= 1 ==> x == g && y == ISqrt2 && e == k
      decreases e
    {
      HalveExponent(k, e, px, py);
      if e % 2 == 1 {
        if IsGridOp(g) {
          PowCompose(g, y, x, py, px, py + px);
        }
        var t := MatMul(y, x);
        if t.None? {
          return None;
        }
        y := t.value;
        py := py + px;
      }
      if IsGridOp(g) {
        PowCompose(g, x, x, px, px, 2 * px);
      }
      var t := MatMul(x, x);
      if t.None? {
        return None;
      }
      x := t.value;
      px := 2 * px;
      e := e / 2;
    }
    if k <= 1 {
      ComposeIdentity(g);
    }
    if IsGridOp(g) && k > 0 {
      ExponentDone(k, e, px, py);
      PowCompose(g, x, y, px, py, k);
    }
    r := MatMul(x, y);
  }

  // ---------------------------------------------------------------------------------
  // Shift

  /** lambda^k for any integer k, with lambda^-1 = -1 + sqrt(2). */
  function LambdaPow(k: int): ZSqrt2 {
    if k >= 0 then Z2.Pow(Z2.Lambda, k) else Z2.Pow(Z2.LambdaInv, -k)
  }

  /** Powers of a unit with odd integer part keep an odd integer part. */
  lemma {:induction false} PowOdd(x: ZSqrt2, i: int, n: nat) returns (j: int)
    requires x.a == 2 * i + 1
    ensures Z2.Pow(x, n).a == 2 * j + 1
  {
    if n == 0 {
      j := 0;
    } else {
      var p := Z2.Pow(x, n - 1);
      var j0 := PowOdd(x, i, n - 1);
      assert Z2.Pow(x, n).a == x.a * p.a + 2 * x.b * p.b;
      j := OddTimesOdd(x.a, i, p.a, j0, x.b * p.b);
    }
  }

  /** An odd number times an odd number, plus an even number, is odd. */
  lemma OddTimesOdd(x: int, i: int, y: int, k: int, e: int) returns (j: int)
    requires x == 2 * i + 1 && y == 2 * k + 1
    ensures x * y + 2 * e == 2 * j + 1
  {
    Prod(x, i, 1, y, k, 1);
    j := 2 * (i * k) + i + k + e;
  }

  lemma LambdaPowOdd(k: int) returns (j: int)
    ensures LambdaPow(k).a == 2 * j + 1
  {
    if k >= 0 {
      j := PowOdd(Z2.Lambda, 0, k);
    } else {
      j := PowOdd(Z2.LambdaInv, -1, -k);
    }
  }

  /** (xA)(yB) == (xy)(AB). */
  lemma MulInterchange(x: ZSqrt2, a: ZSqrt2, y: ZSqrt2, b: ZSqrt2)
    ensures Z2.Mul(Z2.Mul(x, a), Z2.Mul(y, b)) == Z2.Mul(Z2.Mul(x, y), Z2.Mul(a, b))
  {
    Z2.MulAssoc(x, a, Z2.Mul(y, b));
    Z2.MulAssoc(a, y, b);
    Z2.MulComm(a, y);
    Z2.MulAssoc(y, a, b);
    Z2.MulAssoc(x, y, Z2.Mul(a, b));
  }

  lemma {:induction false} PowInverse(x: ZSqrt2, y: ZSqrt2, n: nat)
    requires Z2.Mul(x, y) == Z2.One
    ensures Z2.Mul(Z2.Pow(x, n), Z2.Pow(y, n)) == Z2.One
  {
    if n > 0 {
      var a, b := Z2.Pow(x, n - 1), Z2.Pow(y, n - 1);
      calc {
        Z2.Mul(Z2.Pow(x, n), Z2.Pow(y, n));
        Z2.Mul(Z2.Mul(x, a), Z2.Mul(y, b));
        { MulInterchange(x, a, y, b); }
        Z2.Mul(Z2.Mul(x, y), Z2.Mul(a, b));
        { PowInverse(x, y, n - 1); }
        Z2.Mul(Z2.One, Z2.One);
        Z2.One;
      }
    }
  }

  /** lambda^k * lambda^-k == 1. */
  lemma LambdaPowInverse(k: int)
    ensures Z2.Mul(LambdaPow(k), LambdaPow(-k)) == Z2.One
    ensures Z2.Mul(LambdaPow(-k), LambdaPow(k)) == Z2.One
  {
    assert Z2.Mul(Z2.Lambda, Z2.LambdaInv) == Z2.One;
    if k >= 0 {
      PowInverse(Z2.Lambda, Z2.LambdaInv, k);
      if k == 0 {
        Z2.MulOne(Z2.One);
      }
    } else {
      PowInverse(Z2.Lambda, Z2.LambdaInv, -k);
    }
    Z2.MulComm(LambdaPow(k), LambdaPow(-k));
  }

  /** Products with the constants 0, 1 and sqrt(2), in closed form. */
  lemma MulConstants(x: ZSqrt2)
    ensures Z2.Mul(Z2.Sqrt2, x) == Z2.ZSqrt2(2 * x.b, x.a) && Z2.Mul(x, Z2.Sqrt2) == Z2.ZSqrt2(2 * x.b, x.a)
    ensures Z2.Mul(Z2.Zero, x) == Z2.Zero && Z2.Mul(x, Z2.Zero) == Z2.Zero
    ensures Z2.Mul(Z2.One, x) == x && Z2.Mul(x, Z2.One) == x
  {}

  /** `diag(1, u) * sqrt(2)` and `diag(v, 1) * sqrt(2)`, the matrices `left` and `right`
      of `shift`. */
  function LeftFactor(u: ZSqrt2): GridOp {
    GridOp(Z2.Sqrt2, Z2.Zero, Z2.Zero, Z2.ZSqrt2(2 * u.b, u.a))
  }

  function RightFactor(v: ZSqrt2): GridOp {
    GridOp(Z2.ZSqrt2(2 * v.b, v.a), Z2.Zero, Z2.Zero, Z2.Sqrt2)
  }

  /** The diagonal factors are grid operators when u and v have odd integer parts. */
  lemma FactorsGrid(u: ZSqrt2, v: ZSqrt2, i: int, j: int)
    requires u.a == 2 * i + 1 && v.a == 2 * j + 1
    ensures IsGridOp(LeftFactor(u)) && IsGridOp(RightFactor(v))
  {}

  /** When the unscaled product is sqrt(2) times q, `@` gives q exactly when q passes the
      post-init check, and fails otherwise. */
  lemma ComposeExact(g: GridOp, h: GridOp, q: GridOp)
    requires Raw(g, h) == Scaled(q)
    ensures Compose(g, h) == MakeGridOp(q.a, q.b, q.c, q.d)
  {
    ComposeSpec(g, h, q);
    if Compose(g, h).Some? {
      ComposeSpec(g, h, Compose(g, h).value);
      ScaledInjective(Compose(g, h).value, q);
    }
  }

  lemma MulSqrt2Comm(x: ZSqrt2, y: ZSqrt2)
    ensures Z2.Mul(Z2.Mul(x, Z2.Sqrt2), y) == Z2.Mul(Z2.Mul(x, y), Z2.Sqrt2)
  {
    Z2.MulAssoc(x, Z2.Sqrt2, y);
    Z2.MulComm(Z2.Sqrt2, y);
    Z2.MulAssoc(x, y, Z2.Sqrt2);
  }

  lemma AddZero(x: ZSqrt2)
    ensures Z2.Add(x, Z2.Zero) == x && Z2.Add(Z2.Zero, x) == x
  {}

  /** left @ g scales the bottom row by u. */
  lemma LeftRaw(u: ZSqrt2, g: GridOp)
    ensures Raw(LeftFactor(u), g) == Scaled(GridOp(g.a, g.b, Z2.Mul(u, g.c), Z2.Mul(u, g.d)))
  {
    MulConstants(u);
    MulSqrt2Comm(u, g.c);
    MulSqrt2Comm(u, g.d);
    MulConstants(g.a);
    MulConstants(g.b);
    MulConstants(g.c);
    MulConstants(g.d);
    AddZero(Z2.Mul(Z2.Sqrt2, g.a));
    AddZero(Z2.Mul(Z2.Sqrt2, g.b));
    AddZero(Z2.Mul(Z2.Mul(u, Z2.Sqrt2), g.c));
    AddZero(Z2.Mul(Z2.Mul(u, Z2.Sqrt2), g.d));
  }

  /** m @ right scales the left column by v. */
  lemma RightRaw(m: GridOp, v: ZSqrt2)
    ensures Raw(m, RightFactor(v)) == Scaled(GridOp(Z2.Mul(m.a, v), m.b, Z2.Mul(m.c, v), m.d))
  {
    MulConstants(v);
    Z2.MulAssoc(m.a, v, Z2.Sqrt2);
    Z2.MulAssoc(m.c, v, Z2.Sqrt2);
    MulConstants(m.a);
    MulConstants(m.b);
    MulConstants(m.c);
    MulConstants(m.d);
    AddZero(Z2.Mul(m.a, Z2.Mul(v, Z2.Sqrt2)));
    AddZero(Z2.Mul(m.c, Z2.Mul(v, Z2.Sqrt2)));
    AddZero(Z2.Mul(m.b, Z2.Sqrt2));
    AddZero(Z2.Mul(m.d, Z2.Sqrt2));
  }

  /** What `shift(k)` computes: lambda^k times the top-left entry and lambda^-k times the
      bottom-right one, with the bottom-left entry multiplied by lambda^-k lambda^k. */
  function ShiftForm(g: GridOp, k: int): GridOp {
    GridOp(Z2.Mul(g.a, LambdaPow(k)), g.b, Z2.Mul(Z2.Mul(LambdaPow(-k), g.c), LambdaPow(k)),
           Z2.Mul(LambdaPow(-k), g.d))
  }

  /** The shift of Lemma A.9 of the paper: sigma^k g sigma^k with sigma = diag(lambda, lambda^-1)
      up to scaling, which multiplies the diagonal by lambda^k and lambda^-k. */
  function Shifted(g: GridOp, k: int): GridOp {
    GridOp(Z2.Mul(g.a, LambdaPow(k)), g.b, g.c, Z2.Mul(LambdaPow(-k), g.d))
  }

  lemma ShiftFormSimplifies(g: GridOp, k: int)
    ensures ShiftForm(g, k) == Shifted(g, k)
  {
    LambdaPowInverse(k);
    Z2.MulAssoc(LambdaPow(-k), g.c, LambdaPow(k));
    Z2.MulComm(g.c, LambdaPow(k));
    Z2.MulAssoc(LambdaPow(-k), LambdaPow(k), g.c);
    Z2.MulOne(g.c);
  }

  /** The operator between the two products of `shift`: left @ g. */
  function ShiftMid(g: GridOp, u: ZSqrt2): GridOp {
    GridOp(g.a, g.b, Z2.Mul(u, g.c), Z2.Mul(u, g.d))
  }

  /** left @ g is ShiftMid whenever it is defined, and on a grid operator it is defined
      and a grid operator. */
  lemma {:induction false} ShiftLeftStep(g: GridOp, k: int)
    ensures Compose(LeftFactor(LambdaPow(-k)), g).Some? ==>
      Compose(LeftFactor(LambdaPow(-k)), g).value == ShiftMid(g, LambdaPow(-k))
    ensures IsGridOp(g) ==>
      Compose(LeftFactor(LambdaPow(-k)), g) == Some(ShiftMid(g, LambdaPow(-k)))
      && IsGridOp(ShiftMid(g, LambdaPow(-k)))
  {
    var u := LambdaPow(-k);
    var mid := ShiftMid(g, u);
    LeftRaw(u, g);
    ComposeExact(LeftFactor(u), g, mid);
    if IsGridOp(g) {
      var i := LambdaPowOdd(-k);
      FactorsGrid(u, u, i, i);
      ComposeClosed(LeftFactor(u), g);
    }
  }

  /** mid @ right is ShiftForm whenever it is defined, and for a grid operator g it is
      defined and is the shifted operator. */
  lemma {:induction false} ShiftRightStep(g: GridOp, k: int)
    ensures var q := ShiftMid(g, LambdaPow(-k));
      Compose(q, RightFactor(LambdaPow(k))).Some? ==>
        Compose(q, RightFactor(LambdaPow(k))).value == ShiftForm(g, k)
    ensures var q := ShiftMid(g, LambdaPow(-k));
      IsGridOp(q) ==> Compose(q, RightFactor(LambdaPow(k))) == Some(Shifted(g, k))
  {
    var q, v := ShiftMid(g, LambdaPow(-k)), LambdaPow(k);
    RightRaw(q, v);
    ComposeExact(q, RightFactor(v), ShiftForm(g, k));
    ShiftFormSimplifies(g, k);
    if IsGridOp(q) {
      var j := LambdaPowOdd(k);
      FactorsGrid(v, v, j, j);
      ComposeClosed(q, RightFactor(v));
    }
  }

  /** A shift of a grid operator is a grid operator. */
  lemma ShiftedGrid(g: GridOp, k: int)
    requires IsGridOp(g)
    ensures IsGridOp(Shifted(g, k))
  {
    var q, v := ShiftMid(g, LambdaPow(-k)), LambdaPow(k);
    ShiftLeftStep(g, k);
    ShiftRightStep(g, k);
    var j := LambdaPowOdd(k);
    FactorsGrid(v, v, j, j);
    ComposeClosed(q, RightFactor(v));
  }

  /** The matrices `shift` builds pass the post-init check. */
  lemma LeftBuilt(k: int)
    ensures var u := LambdaPow(-k);
      MakeGridOp(Z2.Mul(Z2.One, Z2.Sqrt2), Z2.Mul(Z2.Zero, Z2.Sqrt2), Z2.Mul(Z2.Zero, Z2.Sqrt2),
                 Z2.Mul(u, Z2.Sqrt2)) == Some(LeftFactor(u))
  {
    var u := LambdaPow(-k);
    var i := LambdaPowOdd(-k);
    assert PostInit(LeftFactor(u));
    MulConstants(Z2.Sqrt2);
    MulConstants(u);
  }

  lemma RightBuilt(k: int)
    ensures var v := LambdaPow(k);
      MakeGridOp(Z2.Mul(v, Z2.Sqrt2), Z2.Mul(Z2.Zero, Z2.Sqrt2), Z2.Mul(Z2.Zero, Z2.Sqrt2),
                 Z2.Mul(Z2.One, Z2.Sqrt2)) == Some(RightFactor(v))
  {
    var v := LambdaPow(k);
    var j := LambdaPowOdd(k);
    assert PostInit(RightFactor(v));
    MulConstants(Z2.Sqrt2);
    MulConstants(v);
  }

  /** The matrices `left` and `right` of `shift(k)`: the post-init check passes on both, so
      neither construction fails. */
  method ShiftFactors(k: int) returns (left: Option<GridOp>, right: Option<GridOp>)
    ensures left == Some(LeftFactor(LambdaPow(-k)))
    ensures right == Some(RightFactor(LambdaPow(k)))
  {
    var lam, linv := Z2.Lambda, Z2.LambdaInv;
    if k < 0 {
      lam, linv := Z2.LambdaInv, Z2.Lambda;
    }
    var n := PyInt.Abs(k);
    var u := Z2.Power(linv, n);
    var v := Z2.Power(lam, n);
    assert u == LambdaPow(-k) && v == LambdaPow(k);
    LeftBuilt(k);
    RightBuilt(k);
    left := MakeGridOp(Z2.Mul(Z2.One, Z2.Sqrt2), Z2.Mul(Z2.Zero, Z2.Sqrt2), Z2.Mul(Z2.Zero, Z2.Sqrt2), Z2.Mul(u, Z2.Sqrt2));
    right := MakeGridOp(Z2.Mul(v, Z2.Sqrt2), Z2.Mul(Z2.Zero, Z2.Sqrt2), Z2.Mul(Z2.Zero, Z2.Sqrt2), Z2.Mul(Z2.One, Z2.Sqrt2));
  }

  /** `shift(k)`: left @ self @ right.  Whatever comes back is ShiftForm, and on a grid
      operator the result is defined and is the shifted grid operator.  None stands for a
      ValueError of `@` or an assertion of the post-init check on the product. */
  method Shift(g: GridOp, k: int) returns (r: Option<GridOp>)
    requires PostInit(g)
    ensures r.Some? ==> r.value == ShiftForm(g, k)
    ensures IsGridOp(g) ==> r == Some(Shifted(g, k))
  {
    var left, right := ShiftFactors(k);
    ShiftLeftStep(g, k);
    ShiftRightStep(g, k);
    var mid := MatMul(left.value, g);
    if mid.None? {
      return None;
    }
    r := MatMul(mid.value, right.value);
  }

  /** Shifting by k and then by -k gives back the grid operator; shifting by 0 changes nothing. */
  lemma ShiftRoundTrip(g: GridOp, k: int)
    ensures Shifted(Shifted(g, k), -k) == g
    ensures Shifted(g, 0) == g
  {
    LambdaPowInverse(k);
    Z2.MulAssoc(g.a, LambdaPow(k), LambdaPow(-k));
    Z2.MulAssoc(LambdaPow(k), LambdaPow(-k), g.d);
    assert -(-k) == k;
    Z2.MulOne(g.a);
    Z2.MulOne(g.d);
  }

  // ---------------------------------------------------------------------------------
  // sqrt(2)-conjugate

  /** Every entry replaced by its sqrt(2)-conjugate. */
  function ConjEntries(g: GridOp): GridOp {
    GridOp(Z2.Conj(g.a), Z2.Conj(g.b), Z2.Conj(g.c), Z2.Conj(g.d))
  }

  /** `sqrt2_conj`: fills a fresh 2x2 array entry by entry with the conjugates and builds the
      operator from it; the result is the entrywise conjugate. */
  method Sqrt2Conj(g: GridOp) returns (r: Option<GridOp>)
    requires PostInit(g)
    ensures r == Some(ConjEntries(g))
  {
    var res := new ZSqrt2[2, 2];
    for i := 0 to 2
      invariant forall p, q | 0 <= p < i && 0 <= q < 2 :: res[p, q] == Z2.Conj(Entry(g, p, q))
    {
      for j := 0 to 2
        invariant forall p, q | 0 <= p < i && 0 <= q < 2 :: res[p, q] == Z2.Conj(Entry(g, p, q))
        invariant forall q | 0 <= q < j :: res[i, q] == Z2.Conj(Entry(g, i, q))
      {
        res[i, j] := Z2.Conj(Entry(g, i, j));
      }
    }
    var m := Cells(res);
    assert m == ConjEntries(g);
    r := MakeGridOp(m.a, m.b, m.c, m.d);
  }

  /** Conjugating twice gives back the operator; a grid operator's conjugate is one. */
  lemma ConjEntriesInvolution(g: GridOp)
    ensures ConjEntries(ConjEntries(g)) == g
    ensures IsGridOp(g) ==> IsGridOp(ConjEntries(g))
  {
    assert (-g.a.b - g.b.b - g.c.b - g.d.b) == -(g.a.b + g.b.b + g.c.b + g.d.b);
  }

  lemma ConjMul(x: ZSqrt2, y: ZSqrt2)
    ensures Z2.Conj(Z2.Mul(x, y)) == Z2.Mul(Z2.Conj(x), Z2.Conj(y))
  {}

  lemma ConjLin(u: ZSqrt2, x: ZSqrt2, v: ZSqrt2, y: ZSqrt2)
    ensures Z2.Conj(Z2.Lin(u, x, v, y)) == Z2.Lin(Z2.Conj(u), Z2.Conj(x), Z2.Conj(v), Z2.Conj(y))
  {
    ConjMul(u, x);
    ConjMul(v, y);
  }

  /** Halving commutes with conjugation up to sign, because conj(sqrt 2) == -sqrt 2. */
  lemma HalfConj(x: ZSqrt2)
    ensures Half(Z2.Conj(x)) == Z2.Neg(Z2.Conj(Half(x)))
  {}

  function NegEntries(g: GridOp): GridOp {
    GridOp(Z2.Neg(g.a), Z2.Neg(g.b), Z2.Neg(g.c), Z2.Neg(g.d))
  }

  /** The conjugate of a product is minus the product of the conjugates. */
  lemma ConjDot(g: GridOp, h: GridOp)
    ensures Dot(ConjEntries(g), ConjEntries(h)) == NegEntries(ConjEntries(Dot(g, h)))
  {
    var r := Raw(g, h);
    assert Raw(ConjEntries(g), ConjEntries(h)) == ConjEntries(r) by {
      ConjLin(g.a, h.a, g.b, h.c);
      ConjLin(g.a, h.b, g.b, h.d);
      ConjLin(g.c, h.a, g.d, h.c);
      ConjLin(g.c, h.b, g.d, h.d);
    }
    HalfConj(r.a);
    HalfConj(r.b);
    HalfConj(r.c);
    HalfConj(r.d);
  }

  // ---------------------------------------------------------------------------------
  // Scaled inverse

  /** The determinant ad - bc of the scaled matrix. */
  function Det(g: GridOp): ZSqrt2 {
    Z2.Sub(Z2.Mul(g.a, g.d), Z2.Mul(g.b, g.c))
  }

  /** `scaled_inverse`: the adjugate [[d, -b], [-c, a]] times the sign of the determinant;
      None is the assertion that the determinant is the integer 2 or -2. */
  function ScaledInverse(g: GridOp): Option<GridOp> {
    var det := Det(g);
    if !(det.b == 0 && (det.a == -2 || det.a == 2)) then None
    else
      var sgn := if det.a == -2 then -1 else 1;
      MakeGridOp(Z2.Scale(g.d, sgn), Z2.Scale(Z2.Neg(g.b), sgn), Z2.Scale(Z2.Neg(g.c), sgn), Z2.Scale(g.a, sgn))
  }

  /** The adjugate times s. */
  function Adjugate(g: GridOp, s: int): GridOp {
    GridOp(Z2.Scale(g.d, s), Z2.Scale(Z2.Neg(g.b), s), Z2.Scale(Z2.Neg(g.c), s), Z2.Scale(g.a, s))
  }

  lemma ScaleUnit(x: ZSqrt2)
    ensures Z2.Scale(x, 1) == x && Z2.Scale(x, -1) == Z2.Neg(x)
  {}

  /** The adjugate with sign -1 is the negated adjugate with sign 1. */
  lemma AdjugateSigns(g: GridOp)
    ensures Adjugate(g, 1) == GridOp(g.d, Z2.Neg(g.b), Z2.Neg(g.c), g.a)
    ensures Adjugate(g, -1) == NegEntries(Adjugate(g, 1))
  {
    ScaleUnit(g.a);
    ScaleUnit(g.b);
    ScaleUnit(g.c);
    ScaleUnit(g.d);
    ScaleUnit(Z2.Neg(g.b));
    ScaleUnit(Z2.Neg(g.c));
  }

  /** adj(g) @ g == det(g) I, before the division by sqrt(2). */
  lemma AdjugateLeft(g: GridOp)
    ensures Raw(GridOp(g.d, Z2.Neg(g.b), Z2.Neg(g.c), g.a), g) == GridOp(Det(g), Z2.Zero, Z2.Zero, Det(g))
  {
    Z2.MulComm(g.d, g.a);
    Z2.MulComm(g.c, g.b);
    MulNeg(g.b, g.c);
    MulNeg(g.b, g.d);
    MulNeg(g.c, g.a);
    MulNeg(g.c, g.b);
    Z2.MulComm(g.d, g.b);
    Z2.MulComm(g.c, g.a);
  }

  /** g @ adj(g) == det(g) I, before the division by sqrt(2). */
  lemma AdjugateRight(g: GridOp)
    ensures Raw(g, GridOp(g.d, Z2.Neg(g.b), Z2.Neg(g.c), g.a)) == GridOp(Det(g), Z2.Zero, Z2.Zero, Det(g))
  {
    MulNeg(g.b, g.c);
    MulNeg(g.a, g.b);
    MulNeg(g.d, g.c);
    MulNeg(g.c, g.b);
    Z2.MulComm(g.d, g.b);
    Z2.MulComm(g.c, g.a);
    Z2.MulComm(g.a, g.b);
    Z2.MulComm(g.d, g.c);
    Z2.MulComm(g.d, g.a);
    Z2.MulComm(g.c, g.b);
  }

  lemma NegProd(m: int, n: int)
    ensures (-m) * n == -(m * n) && m * (-n) == -(m * n)
  {}

  lemma MulNeg(x: ZSqrt2, y: ZSqrt2)
    ensures Z2.Mul(Z2.Neg(x), y) == Z2.Neg(Z2.Mul(x, y))
    ensures Z2.Mul(x, Z2.Neg(y)) == Z2.Neg(Z2.Mul(x, y))
  {
    NegProd(x.a, y.a);
    NegProd(x.b, y.b);
    NegProd(x.a, y.b);
    NegProd(x.b, y.a);
  }

  lemma LinNeg(u: ZSqrt2, x: ZSqrt2, v: ZSqrt2, y: ZSqrt2)
    ensures Z2.Lin(Z2.Neg(u), x, Z2.Neg(v), y) == Z2.Neg(Z2.Lin(u, x, v, y))
    ensures Z2.Lin(u, Z2.Neg(x), v, Z2.Neg(y)) == Z2.Neg(Z2.Lin(u, x, v, y))
  {
    MulNeg(u, x);
    MulNeg(v, y);
  }

  /** Negating one factor negates the product. */
  lemma RawNeg(m: GridOp, h: GridOp)
    ensures Raw(NegEntries(m), h) == NegEntries(Raw(m, h))
    ensures Raw(h, NegEntries(m)) == NegEntries(Raw(h, m))
  {
    LinNeg(m.a, h.a, m.b, h.c);
    LinNeg(m.a, h.b, m.b, h.d);
    LinNeg(m.c, h.a, m.d, h.c);
    LinNeg(m.c, h.b, m.d, h.d);
    LinNeg(h.a, m.a, h.b, m.c);
    LinNeg(h.a, m.b, h.b, m.d);
    LinNeg(h.c, m.a, h.d, m.c);
    LinNeg(h.c, m.b, h.d, m.d);
  }

  lemma ScaledIdentity()
    ensures Scaled(ISqrt2) == GridOp(Z2.ZSqrt2(2, 0), Z2.Zero, Z2.Zero, Z2.ZSqrt2(2, 0))
  {
    MulConstants(Z2.Sqrt2);
  }

  /** Both products of g with its adjugate are sqrt(2) ISqrt2 when det(g) == 2. */
  lemma AdjugateProductsPos(g: GridOp)
    requires Det(g) == Z2.ZSqrt2(2, 0)
    ensures Raw(Adjugate(g, 1), g) == Scaled(ISqrt2) && Raw(g, Adjugate(g, 1)) == Scaled(ISqrt2)
  {
    AdjugateSigns(g);
    AdjugateLeft(g);
    AdjugateRight(g);
    ScaledIdentity();
  }

  /** Both products of g with minus its adjugate are sqrt(2) ISqrt2 when det(g) == -2. */
  lemma AdjugateProductsNeg(g: GridOp)
    requires Det(g) == Z2.ZSqrt2(-2, 0)
    ensures Raw(Adjugate(g, -1), g) == Scaled(ISqrt2) && Raw(g, Adjugate(g, -1)) == Scaled(ISqrt2)
  {
    var adj := GridOp(g.d, Z2.Neg(g.b), Z2.Neg(g.c), g.a);
    var dI := GridOp(Det(g), Z2.Zero, Z2.Zero, Det(g));
    AdjugateSigns(g);
    AdjugateLeft(g);
    AdjugateRight(g);
    ScaledIdentity();
    RawNeg(adj, g);
    assert NegEntries(dI) == Scaled(ISqrt2);
  }

  /** ISqrt2 passes the post-init check and is a grid operator. */
  lemma IdentityValid()
    ensures PostInit(ISqrt2) && IsGridOp(ISqrt2)
  {
  }

  /** An operator pair whose raw product is sqrt(2) ISqrt2 composes to ISqrt2. */
  lemma ComposeToIdentity(g: GridOp, h: GridOp)
    requires Raw(g, h) == Scaled(ISqrt2)
    ensures Compose(g, h) == Some(ISqrt2)
  {
    IdentityValid();
    ComposeSpec(g, h, ISqrt2);
  }

  /** The signed adjugate passes the post-init check exactly when g does. */
  lemma AdjugatePostInit(g: GridOp, s: int)
    requires s == 1 || s == -1
    ensures PostInit(Adjugate(g, s)) <==> PostInit(g)
  {
    AdjugateSigns(g);
    assert g.d.a - g.b.a - g.c.a + g.a.a == (g.a.a + g.b.a + g.c.a + g.d.a) - 2 * (g.b.a + g.c.a);
    assert g.d.b - g.b.b - g.c.b + g.a.b == (g.a.b + g.b.b + g.c.b + g.d.b) - 2 * (g.b.b + g.c.b);
    assert -g.d.a + g.b.a + g.c.a - g.a.a == -(g.a.a + g.b.a + g.c.a + g.d.a) + 2 * (g.b.a + g.c.a);
    assert -g.d.b + g.b.b + g.c.b - g.a.b == -(g.a.b + g.b.b + g.c.b + g.d.b) + 2 * (g.b.b + g.c.b);
  }

  /** When det(g) == 2 the scaled inverse is the adjugate. */
  lemma ScaledInversePos(g: GridOp)
    requires PostInit(g) && Det(g) == Z2.ZSqrt2(2, 0)
    ensures ScaledInverse(g) == Some(Adjugate(g, 1))
  {
    AdjugatePostInit(g, 1);
  }

  /** When det(g) == -2 the scaled inverse is minus the adjugate. */
  lemma ScaledInverseNeg(g: GridOp)
    requires PostInit(g) && Det(g) == Z2.ZSqrt2(-2, 0)
    ensures ScaledInverse(g) == Some(Adjugate(g, -1))
  {
    AdjugatePostInit(g, -1);
  }

  /** On a valid operator the scaled inverse fails exactly when the determinant is not
      2 or -2, the assertion of `scaled_inverse`. */
  lemma ScaledInverseDefined(g: GridOp)
    requires PostInit(g)
    ensures ScaledInverse(g).Some? <==> Det(g).b == 0 && (Det(g).a == 2 || Det(g).a == -2)
  {
    if Det(g).b == 0 && Det(g).a == 2 {
      ScaledInversePos(g);
    } else if Det(g).b == 0 && Det(g).a == -2 {
      ScaledInverseNeg(g);
    }
  }

  /** When it is defined, the scaled inverse is a two-sided inverse of g in the monoid of
      scaled operators, and it is a grid operator whenever g is one. */
  lemma {:induction false} ScaledInverseSpec(g: GridOp)
    requires ScaledInverse(g).Some?
    ensures var h := ScaledInverse(g).value;
      Compose(h, g) == Some(ISqrt2) && Compose(g, h) == Some(ISqrt2)
    ensures IsGridOp(g) ==> IsGridOp(ScaledInverse(g).value)
  {
    var s := if Det(g).a == -2 then -1 else 1;
    var h := Adjugate(g, s);
    assert ScaledInverse(g) == Some(h) by {
      AdjugatePostInit(g, s);
      if s == -1 {
        ScaledInverseNeg(g);
      } else {
        ScaledInversePos(g);
      }
    }
    assert Compose(h, g) == Some(ISqrt2) && Compose(g, h) == Some(ISqrt2) by {
      if s == -1 {
        AdjugateProductsNeg(g);
      } else {
        AdjugateProductsPos(g);
      }
      ComposeToIdentity(h, g);
      ComposeToIdentity(g, h);
    }
    assert IsGridOp(g) ==> IsGridOp(h) by {
      if IsGridOp(g) {
        AdjugateGrid(g, s);
      }
    }
  }

  lemma AdjugateGrid(g: GridOp, s: int)
    requires IsGridOp(g) && (s == 1 || s == -1)
    ensures IsGridOp(Adjugate(g, s))
  {
    AdjugateSigns(g);
    if s == 1 {
      AdjugatePosGrid(g);
    } else {
      AdjugateNegGrid(g);
    }
  }

  lemma AdjugatePosGrid(g: GridOp)
    requires IsGridOp(g)
    ensures IsGridOp(GridOp(g.d, Z2.Neg(g.b), Z2.Neg(g.c), g.a))
  {
    NegParity(g.b.a);
    NegParity(g.c.a);
    var t := g.a.b + g.b.b + g.c.b + g.d.b;
    assert g.d.b + -g.b.b + -g.c.b + g.a.b == t - 2 * (g.b.b + g.c.b);
  }

  lemma AdjugateNegGrid(g: GridOp)
    requires IsGridOp(g)
    ensures IsGridOp(GridOp(Z2.Neg(g.d), g.b, g.c, Z2.Neg(g.a)))
  {
    NegParity(g.a.a);
    NegParity(g.d.a);
    var t := g.a.b + g.b.b + g.c.b + g.d.b;
    assert -g.d.b + g.b.b + g.c.b + -g.a.b == -t + 2 * (g.b.b + g.c.b);
  }

  lemma NegParity(x: int)
    ensures (-x) % 2 == x % 2
  {
    assert -x == 2 * (-x / 2) + (-x) % 2;
  }

  // ---------------------------------------------------------------------------------
  // Action on points of Z[w]

  /** sqrt(2) times the real part of z: with w = (1 + i)/sqrt(2), z = c0 + c1 w + c2 i + c3 w^3
      has real part c0 + (c1 - c3)/sqrt(2). */
  function ScaledRe(z: ZW.ZW): ZSqrt2 { Z2.ZSqrt2(z.c1 - z.c3, z.c0) }

  /** sqrt(2) times the imaginary part of z, which is c2 + (c1 + c3)/sqrt(2). */
  function ScaledIm(z: ZW.ZW): ZSqrt2 { Z2.ZSqrt2(z.c1 + z.c3, z.c2) }

  /** A point of Z[w] is determined by its scaled real and imaginary parts. */
  lemma PointEq(z: ZW.ZW, z': ZW.ZW)
    requires ScaledRe(z) == ScaledRe(z') && ScaledIm(z) == ScaledIm(z')
    ensures z == z'
  {
    assert 2 * z.c1 == 2 * z'.c1 && 2 * z.c3 == 2 * z'.c3;
  }

  /** The scaled parts of `from_pair(alpha, beta, w)` are alpha sqrt(2) and beta sqrt(2), each
      plus one when w is included. */
  lemma ScaledParts(alpha: ZSqrt2, beta: ZSqrt2, w: bool)
    ensures ScaledRe(ZW.FromPair(alpha, beta, w)) == Z2.Add(Z2.Mul(alpha, Z2.Sqrt2), if w then Z2.One else Z2.Zero)
    ensures ScaledIm(ZW.FromPair(alpha, beta, w)) == Z2.Add(Z2.Mul(beta, Z2.Sqrt2), if w then Z2.One else Z2.Zero)
  {
    MulConstants(alpha);
    MulConstants(beta);
  }

  /** The end of the branch of `apply` for points that include w: xp and yp are sqrt(2)
      times the new scaled parts; None is an AssertionError. */
  function FinishW(xp: ZSqrt2, yp: ZSqrt2): Option<ZW.ZW> {
    if !(xp.a % 2 == yp.a % 2 == 0) then None
    else if xp.b % 2 != yp.b % 2 then None
    else if xp.b % 2 == 0 then
      Some(ZW.FromPair(Z2.ZSqrt2(xp.a / 2, xp.b / 2), Z2.ZSqrt2(yp.a / 2, yp.b / 2), false))
    else
      Some(ZW.FromPair(Z2.ZSqrt2(xp.a / 2, (xp.b - 1) / 2), Z2.ZSqrt2(yp.a / 2, (yp.b - 1) / 2), true))
  }

  /** The end of the branch of `apply` for points without w: xp and yp are the new scaled
      parts; None is an AssertionError (the divisions by sqrt(2) that follow cannot fail). */
  function FinishPlain(xp: ZSqrt2, yp: ZSqrt2): Option<ZW.ZW> {
    if (xp.a + yp.a) % 2 != 0 then None
    else
      var w := xp.a % 2 != 0;
      var xs := if w then Z2.Sub(xp, Z2.One) else xp;
      var ys := if w then Z2.Sub(yp, Z2.One) else yp;
      match (Z2.DivideBySqrt2(xs), Z2.DivideBySqrt2(ys))
      case (Some(u), Some(v)) => Some(ZW.FromPair(u, v, w))
      case _ => None
  }

  /** `g.apply(z)`: the matrix acts on the vector (Re z, Im z), written in Z[sqrt 2]; None is
      an AssertionError. */
  function Apply(g: GridOp, z: ZW.ZW): Option<ZW.ZW> {
    var t := ZW.ToZSqrt2(z);
    if t.2 then
      var x := Z2.Add(Z2.Mul(t.0, Z2.Sqrt2), Z2.One);
      var y := Z2.Add(Z2.Mul(t.1, Z2.Sqrt2), Z2.One);
      FinishW(Z2.Lin(g.a, x, g.b, y), Z2.Lin(g.c, x, g.d, y))
    else
      FinishPlain(Z2.Lin(g.a, t.0, g.b, t.1), Z2.Lin(g.c, t.0, g.d, t.1))
  }

  /** FinishW succeeds exactly when both integer parts are even and the sqrt(2) parts agree
      in parity, and then sqrt(2) times the new scaled parts are xp and yp. */
  lemma FinishWSpec(xp: ZSqrt2, yp: ZSqrt2)
    ensures FinishW(xp, yp).Some? <==> xp.a % 2 == 0 && yp.a % 2 == 0 && xp.b % 2 == yp.b % 2
    ensures FinishW(xp, yp).Some? ==>
      var z' := FinishW(xp, yp).value;
      Z2.Mul(ScaledRe(z'), Z2.Sqrt2) == xp && Z2.Mul(ScaledIm(z'), Z2.Sqrt2) == yp
  {
    if FinishW(xp, yp).Some? {
      var w := xp.b % 2 == 1;
      var e := if w then 1 else 0;
      var alpha := Z2.ZSqrt2(xp.a / 2, (xp.b - e) / 2);
      var beta := Z2.ZSqrt2(yp.a / 2, (yp.b - e) / 2);
      assert FinishW(xp, yp) == Some(ZW.FromPair(alpha, beta, w));
      ScaledParts(alpha, beta, w);
      MulConstants(Z2.ZSqrt2(2 * alpha.b + e, alpha.a));
      MulConstants(Z2.ZSqrt2(2 * beta.b + e, beta.a));
    }
  }

  /** FinishPlain succeeds exactly when the integer parts have an even sum, and then the new
      scaled parts are xp and yp. */
  lemma FinishPlainSpec(xp: ZSqrt2, yp: ZSqrt2)
    ensures FinishPlain(xp, yp).Some? <==> (xp.a + yp.a) % 2 == 0
    ensures FinishPlain(xp, yp).Some? ==>
      var z' := FinishPlain(xp, yp).value;
      ScaledRe(z') == xp && ScaledIm(z') == yp
  {
    if (xp.a + yp.a) % 2 == 0 {
      var w := xp.a % 2 != 0;
      var one := if w then Z2.One else Z2.Zero;
      var xs, ys := Z2.Sub(xp, one), Z2.Sub(yp, one);
      assert xs.a % 2 == 0 && ys.a % 2 == 0;
      var u, v := Z2.DivideBySqrt2(xs).value, Z2.DivideBySqrt2(ys).value;
      assert FinishPlain(xp, yp) == Some(ZW.FromPair(u, v, w));
      ScaledParts(u, v, w);
    }
  }

  /** The scaled parts of z, as `apply` reads them. */
  lemma ApplyInput(z: ZW.ZW)
    ensures var t := ZW.ToZSqrt2(z);
      var one := if t.2 then Z2.One else Z2.Zero;
      && ScaledRe(z) == Z2.Add(Z2.Mul(t.0, Z2.Sqrt2), one)
      && ScaledIm(z) == Z2.Add(Z2.Mul(t.1, Z2.Sqrt2), one)
  {
    var t := ZW.ToZSqrt2(z);
    ZW.FromPairToZSqrt2(z);
    ScaledParts(t.0, t.1, t.2);
  }

  /** What `apply` computes: when it succeeds, sqrt(2) times the new point's (Re, Im) is the
      scaled matrix applied to sqrt(2) times the old point's (Re, Im), that is, the new point
      is the grid operator applied to the old one. */
  lemma {:induction false} ApplyCoords(g: GridOp, z: ZW.ZW)
    requires Apply(g, z).Some?
    ensures var z' := Apply(g, z).value;
      && Z2.Mul(ScaledRe(z'), Z2.Sqrt2) == Z2.Lin(g.a, ScaledRe(z), g.b, ScaledIm(z))
      && Z2.Mul(ScaledIm(z'), Z2.Sqrt2) == Z2.Lin(g.c, ScaledRe(z), g.d, ScaledIm(z))
  {
    var t := ZW.ToZSqrt2(z);
    ApplyInput(z);
    if t.2 {
      var x := Z2.Add(Z2.Mul(t.0, Z2.Sqrt2), Z2.One);
      var y := Z2.Add(Z2.Mul(t.1, Z2.Sqrt2), Z2.One);
      FinishWSpec(Z2.Lin(g.a, x, g.b, y), Z2.Lin(g.c, x, g.d, y));
    } else {
      var xp, yp := Z2.Lin(g.a, t.0, g.b, t.1), Z2.Lin(g.c, t.0, g.d, t.1);
      AddZero(Z2.Mul(t.0, Z2.Sqrt2));
      AddZero(Z2.Mul(t.1, Z2.Sqrt2));
      FinishPlainSpec(xp, yp);
      LinScaledRight(g.a, t.0, g.b, t.1);
      LinScaledRight(g.c, t.0, g.d, t.1);
    }
  }

  /** The integer part of u x + v y, written out. */
  lemma LinIntPart(u: ZSqrt2, x: ZSqrt2, v: ZSqrt2, y: ZSqrt2)
    ensures Z2.Lin(u, x, v, y).a == u.a * x.a + 2 * (u.b * x.b) + v.a * y.a + 2 * (v.b * y.b)
  {}

  /** ax + cx is even when a + c is. */
  lemma EvenFactor(a: int, c: int, x: int, s: int)
    requires a + c == 2 * s
    ensures a * x + c * x == 2 * (s * x)
  {
    assert a * x + c * x == (a + c) * x;
  }

  /** In a column pair of rows whose integer parts agree in parity, the integer parts of the
      two entries of a product have an even sum. */
  lemma ColumnEven(u0: ZSqrt2, u1: ZSqrt2, c0: ZSqrt2, c1: ZSqrt2, w0: ZSqrt2, w1: ZSqrt2)
      returns (k: int)
    requires u0.a % 2 == c0.a % 2 && u1.a % 2 == c1.a % 2
    ensures Z2.Lin(u0, w0, u1, w1).a + Z2.Lin(c0, w0, c1, w1).a == 2 * k
  {
    var s := EvenSum(u0.a, c0.a);
    var t := EvenSum(u1.a, c1.a);
    LinIntPart(u0, w0, u1, w1);
    LinIntPart(c0, w0, c1, w1);
    EvenFactor(u0.a, c0.a, w0.a, s);
    EvenFactor(u1.a, c1.a, w1.a, t);
    k := s * w0.a + t * w1.a + u0.b * w0.b + u1.b * w1.b + c0.b * w0.b + c1.b * w1.b;
  }

  /** The branch for points with w succeeds on a grid operator. */
  lemma {:induction false} ApplyDefinedW(g: GridOp, x: ZSqrt2, y: ZSqrt2)
    requires IsGridOp(g) && x.a % 2 == 1 && y.a % 2 == 1
    ensures FinishW(Z2.Lin(g.a, x, g.b, y), Z2.Lin(g.c, x, g.d, y)).Some?
  {
    var xp, yp := Z2.Lin(g.a, x, g.b, y), Z2.Lin(g.c, x, g.d, y);
    var p := g.a.a % 2;
    var k, m := EntryParity(g.a, g.b, x, y, p, 1);
    var k', m' := EntryParity(g.c, g.d, x, y, p, 1);
    var e := EvenDifference(g.a.b, g.b.b, g.c.b, g.d.b);
    SameParity(xp.a, 0, k);
    SameParity(yp.a, 0, k');
    SameParity(xp.b, yp.b, e + m - m');
    FinishWSpec(xp, yp);
  }

  /** The branch for points without w succeeds on a grid operator. */
  lemma ApplyDefinedPlain(g: GridOp, x: ZSqrt2, y: ZSqrt2)
    requires IsGridOp(g)
    ensures FinishPlain(Z2.Lin(g.a, x, g.b, y), Z2.Lin(g.c, x, g.d, y)).Some?
  {
    var xp, yp := Z2.Lin(g.a, x, g.b, y), Z2.Lin(g.c, x, g.d, y);
    var k := ColumnEven(g.a, g.b, g.c, g.d, x, y);
    SameParity(xp.a + yp.a, 0, k);
    FinishPlainSpec(xp, yp);
  }

  /** On a grid operator none of the assertions of `apply` fails. */
  lemma ApplyDefined(g: GridOp, z: ZW.ZW)
    requires IsGridOp(g)
    ensures Apply(g, z).Some?
  {
    var t := ZW.ToZSqrt2(z);
    if t.2 {
      MulConstants(t.0);
      MulConstants(t.1);
      ApplyDefinedW(g, Z2.Add(Z2.Mul(t.0, Z2.Sqrt2), Z2.One), Z2.Add(Z2.Mul(t.1, Z2.Sqrt2), Z2.One));
    } else {
      ApplyDefinedPlain(g, t.0, t.1);
    }
  }

  /** A successful `apply` has one possible result: the point whose scaled parts satisfy
      ApplyCoords. */
  lemma ApplyUnique(g: GridOp, z: ZW.ZW, z': ZW.ZW)
    requires Apply(g, z).Some?
    requires Z2.Mul(ScaledRe(z'), Z2.Sqrt2) == Z2.Lin(g.a, ScaledRe(z), g.b, ScaledIm(z))
    requires Z2.Mul(ScaledIm(z'), Z2.Sqrt2) == Z2.Lin(g.c, ScaledRe(z), g.d, ScaledIm(z))
    ensures Apply(g, z) == Some(z')
  {
    var r := Apply(g, z).value;
    ApplyCoords(g, z);
    Sqrt2Cancel(ScaledRe(r), ScaledRe(z'));
    Sqrt2Cancel(ScaledIm(r), ScaledIm(z'));
    PointEq(r, z');
  }

  /** ISqrt2 fixes every point. */
  lemma ApplyIdentity(z: ZW.ZW)
    ensures Apply(ISqrt2, z) == Some(z)
  {
    IdentityValid();
    ApplyDefined(ISqrt2, z);
    MulConstants(ScaledRe(z));
    MulConstants(ScaledIm(z));
    AddZero(Z2.Mul(ScaledRe(z), Z2.Sqrt2));
    AddZero(Z2.Mul(ScaledIm(z), Z2.Sqrt2));
    ApplyUnique(ISqrt2, z, z);
  }

  /** One row of a two-step action: if x, y are the first step's scaled outputs and e, f the
      row of the composed operator, the second step's row gives the composed row. */
  lemma RowCompose(p: ZSqrt2, q: ZSqrt2, a: ZSqrt2, b: ZSqrt2, c: ZSqrt2, d: ZSqrt2,
                   e: ZSqrt2, f: ZSqrt2, r: ZSqrt2, i: ZSqrt2, x: ZSqrt2, y: ZSqrt2)
    requires Z2.Mul(x, Z2.Sqrt2) == Z2.Lin(a, r, b, i) && Z2.Mul(y, Z2.Sqrt2) == Z2.Lin(c, r, d, i)
    requires Z2.Mul(e, Z2.Sqrt2) == Z2.Lin(p, a, q, c) && Z2.Mul(f, Z2.Sqrt2) == Z2.Lin(p, b, q, d)
    ensures Z2.Lin(p, x, q, y) == Z2.Lin(e, r, f, i)
  {
    calc {
      Z2.Mul(Z2.Lin(p, x, q, y), Z2.Sqrt2);
      { LinScaledRight(p, x, q, y); }
      Z2.Lin(p, Z2.Lin(a, r, b, i), q, Z2.Lin(c, r, d, i));
      { LinCompose(p, q, a, b, c, d, r, i); }
      Z2.Lin(Z2.Mul(e, Z2.Sqrt2), r, Z2.Mul(f, Z2.Sqrt2), i);
      { LinScaledLeft(e, r, f, i); }
      Z2.Mul(Z2.Lin(e, r, f, i), Z2.Sqrt2);
    }
    Sqrt2Cancel(Z2.Lin(p, x, q, y), Z2.Lin(e, r, f, i));
  }

  /** Applying g2 and then g1 is applying g1 @ g2. */
  lemma {:induction false} ApplyCompose(g1: GridOp, g2: GridOp, z: ZW.ZW)
    requires IsGridOp(g1) && IsGridOp(g2)
    ensures Apply(g2, z).Some? && Apply(g1, Apply(g2, z).value).Some?
    ensures Compose(g1, g2).Some?
    ensures Apply(g1, Apply(g2, z).value) == Apply(Compose(g1, g2).value, z)
  {
    ApplyDefined(g2, z);
    var z1 := Apply(g2, z).value;
    ApplyDefined(g1, z1);
    var z2 := Apply(g1, z1).value;
    var d := Dot(g1, g2);
    ComposeClosed(g1, g2);
    ApplyDefined(d, z);
    var re, im := ScaledRe(z), ScaledIm(z);
    ApplyCoords(g2, z);
    ApplyCoords(g1, z1);
    RowCompose(g1.a, g1.b, g2.a, g2.b, g2.c, g2.d, d.a, d.b, re, im, ScaledRe(z1), ScaledIm(z1));
    RowCompose(g1.c, g1.d, g2.a, g2.b, g2.c, g2.d, d.c, d.d, re, im, ScaledRe(z1), ScaledIm(z1));
    ApplyUnique(d, z, z2);
  }

  /** `scaled_inverse().apply` undoes `apply`. */
  lemma {:induction false} ApplyRoundTrip(g: GridOp, z: ZW.ZW)
    requires IsGridOp(g) && ScaledInverse(g).Some?
    ensures Apply(g, z).Some? && Apply(ScaledInverse(g).value, Apply(g, z).value) == Some(z)
  {
    var h := ScaledInverse(g).value;
    ScaledInverseSpec(g);
    ApplyCompose(h, g, z);
    ApplyIdentity(z);
  }

  // ---------------------------------------------------------------------------------
  // The operators R, K, K-bullet, A, B, X, Z and Sigma/2, each times sqrt(2)

  const RSqrt2 := GridOp(Z2.ZSqrt2(1, 0), Z2.ZSqrt2(-1, 0), Z2.ZSqrt2(1, 0), Z2.ZSqrt2(1, 0))
  const KSqrt2 := GridOp(Z2.ZSqrt2(1, -1), Z2.ZSqrt2(-1, 0), Z2.ZSqrt2(1, 1), Z2.ZSqrt2(1, 0))
  const KConjSqrt2 := GridOp(Z2.ZSqrt2(1, 1), Z2.ZSqrt2(-1, 0), Z2.ZSqrt2(1, -1), Z2.ZSqrt2(1, 0))
  const ASqrt2 := GridOp(Z2.ZSqrt2(0, 1), Z2.ZSqrt2(0, -2), Z2.ZSqrt2(0, 0), Z2.ZSqrt2(0, 1))
  const BSqrt2 := GridOp(Z2.ZSqrt2(0, 1), Z2.ZSqrt2(2, 0), Z2.ZSqrt2(0, 0), Z2.ZSqrt2(0, 1))
  const XSqrt2 := GridOp(Z2.ZSqrt2(0, 0), Z2.ZSqrt2(0, 1), Z2.ZSqrt2(0, 1), Z2.ZSqrt2(0, 0))
  /** `ZSqrt2` of the source, renamed here because the ring type carries that name. */
  const ZGateSqrt2 := GridOp(Z2.ZSqrt2(0, 1), Z2.ZSqrt2(0, 0), Z2.ZSqrt2(0, 0), Z2.ZSqrt2(0, -1))
  const HalfSigmaSqrt2 := GridOp(Z2.ZSqrt2(2, 1), Z2.ZSqrt2(0, 0), Z2.ZSqrt2(0, 0), Z2.ZSqrt2(0, 1))
  const HalfSigmaInvSqrt2 := GridOp(Z2.ZSqrt2(2, -1), Z2.ZSqrt2(0, 0), Z2.ZSqrt2(0, 0), Z2.ZSqrt2(0, 1))

  /** A product of two elements of Z[sqrt 2] written by coordinates. */
  // The entries of the constants above, evaluated from the source's definitions in terms of
  // One, sqrt(2), lambda = 1 + sqrt(2) and lambda^-1 = -1 + sqrt(2).

  lemma RotationEntries()
    ensures RSqrt2 == GridOp(Z2.One, Z2.Neg(Z2.One), Z2.One, Z2.One)
    ensures KSqrt2 == GridOp(Z2.Neg(Z2.LambdaInv), Z2.Neg(Z2.One), Z2.Lambda, Z2.One)
    ensures KConjSqrt2 == GridOp(Z2.Neg(Z2.Conj(Z2.LambdaInv)), Z2.Neg(Z2.One), Z2.Conj(Z2.Lambda), Z2.One)
    ensures XSqrt2 == GridOp(Z2.Zero, Z2.Sqrt2, Z2.Sqrt2, Z2.Zero)
    ensures ZGateSqrt2 == GridOp(Z2.Sqrt2, Z2.Zero, Z2.Zero, Z2.Neg(Z2.Sqrt2))
  {}

  lemma AEntries()
    ensures ASqrt2 == GridOp(Z2.Sqrt2, Z2.Scale(Z2.Sqrt2, -2), Z2.Zero, Z2.Sqrt2)
  {}

  lemma BEntries()
    ensures BSqrt2 == GridOp(Z2.Sqrt2, Z2.Scale(Z2.One, 2), Z2.Zero, Z2.Sqrt2)
  {}

  lemma HalfSigmaEntries()
    ensures HalfSigmaSqrt2 == GridOp(Z2.Mul(Z2.Sqrt2, Z2.Lambda), Z2.Mul(Z2.Sqrt2, Z2.Zero),
                                     Z2.Mul(Z2.Sqrt2, Z2.Zero), Z2.Mul(Z2.Sqrt2, Z2.One))
  {
    MulConstants(Z2.Lambda);
    MulConstants(Z2.Zero);
    MulConstants(Z2.One);
  }

  lemma HalfSigmaInvEntries()
    ensures HalfSigmaInvSqrt2 == GridOp(Z2.Mul(Z2.Sqrt2, Z2.LambdaInv), Z2.Mul(Z2.Sqrt2, Z2.Zero),
                                        Z2.Mul(Z2.Sqrt2, Z2.Zero), Z2.Mul(Z2.Sqrt2, Z2.One))
  {
    MulConstants(Z2.LambdaInv);
    MulConstants(Z2.Zero);
    MulConstants(Z2.One);
  }

  /** Every named operator passes the post-init check (so its module-level construction
      succeeds) and is a grid operator. */
  lemma NamedOperatorsValid()
    ensures PostInit(RSqrt2) && IsGridOp(RSqrt2)
    ensures PostInit(KSqrt2) && IsGridOp(KSqrt2)
    ensures PostInit(KConjSqrt2) && IsGridOp(KConjSqrt2)
    ensures PostInit(ASqrt2) && IsGridOp(ASqrt2)
    ensures PostInit(BSqrt2) && IsGridOp(BSqrt2)
    ensures PostInit(XSqrt2) && IsGridOp(XSqrt2)
    ensures PostInit(ZGateSqrt2) && IsGridOp(ZGateSqrt2)
    ensures PostInit(ISqrt2) && IsGridOp(ISqrt2)
    ensures PostInit(HalfSigmaSqrt2) && IsGridOp(HalfSigmaSqrt2)
    ensures PostInit(HalfSigmaInvSqrt2) && IsGridOp(HalfSigmaInvSqrt2)
  {}

  /** K-bullet is the sqrt(2)-conjugate of K. */
  lemma KConjIsConjugate()
    ensures KConjSqrt2 == ConjEntries(KSqrt2)
  {}

  // ---------------------------------------------------------------------------------
  // The post-init check against the definition of a grid operator

  lemma OddSquarePlusEven(x: int, y: int, i: int, j: int)
    requires x == 2 * i + 1 && y == 2 * j
    ensures (x * x + y) % 2 == 1
  {
    assert x * x + y == 2 * (2 * i * i + 2 * i + j) + 1;
  }

  /** A matrix whose first row has odd integer parts and whose lower-left entry has an even
      one is not a scaled grid operator, and its square has no entry-wise division by
      sqrt(2): the upper-left entry of the product has an odd integer part. */
  lemma MixedParityNotClosed(g: GridOp)
    requires g.a.a % 2 == 1 && g.b.a % 2 == 1 && g.c.a % 2 == 0
    ensures !IsGridOp(g) && Compose(g, g) == None
  {
    LinIntPart(g.a, g.a, g.b, g.c);
    assert g.b.a * g.c.a == 2 * (g.b.a * (g.c.a / 2));
    OddSquarePlusEven(g.a.a, g.b.a * g.c.a + 2 * (g.a.b * g.a.b) + 2 * (g.b.b * g.c.b),
      g.a.a / 2, g.b.a * (g.c.a / 2) + g.a.b * g.a.b + g.b.b * g.c.b);
  }

  /** The post-init check only asks that the integer parts have an even sum, where a scaled
      grid operator needs all four of the same parity: [[1, 1], [0, 0]] passes the check,
      yet it is no grid operator and `g @ g` fails. */
  lemma PostInitAdmitsNonGrid()
    ensures var g := GridOp(Z2.One, Z2.One, Z2.Zero, Z2.Zero);
      PostInit(g) && !IsGridOp(g) && Compose(g, g) == None
  {
    MixedParityNotClosed(GridOp(Z2.One, Z2.One, Z2.Zero, Z2.Zero));
  }
}
