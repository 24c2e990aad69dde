// Powers in a monoid, stated once for any associative operation with an identity on a set
// of elements closed under it; the grid operators instantiate it with `@`.

module Monoid {
  /** `op` keeps the elements satisfying `inv` among them. */
  ghost predicate Closed<T(!new)>(op: (T, T) -> T, inv: T -> bool) {
    forall x, y {:trigger inv(op(x, y))} :: inv(x) && inv(y) ==> inv(op(x, y))
  }

  /** `unit` is a left identity on the elements satisfying `inv`. */
  ghost predicate LeftUnit<T(!new)>(op: (T, T) -> T, unit: T, inv: T -> bool) {
    forall x {:trigger op(unit, x)} :: inv(x) ==> op(unit, x) == x
  }

  /** `op` is associative on the elements satisfying `inv`. */
  ghost predicate Associative<T(!new)>(op: (T, T) -> T, inv: T -> bool) {
    forall x, y, z {:trigger op(op(x, y), z)} :: inv(x) && inv(y) && inv(z) ==> op(op(x, y), z) == op(x, op(y, z))
  }

  ghost predicate IsMonoid<T(!new)>(op: (T, T) -> T, unit: T, inv: T -> bool) {
    inv(unit) && Closed(op, inv) && LeftUnit(op, unit, inv) && Associative(op, inv)
  }

  /** g multiplied n times, `unit` when n == 0. */
  function Pow<T>(op: (T, T) -> T, unit: T, g: T, n: nat): T {
    if n == 0 then unit else op(g, Pow(op, unit, g, n - 1))
  }

  lemma {:induction false} PowClosed<T(!new)>(op: (T, T) -> T, unit: T, inv: T -> bool, g: T, n: nat)
    requires IsMonoid(op, unit, inv) && inv(g)
    ensures inv(Pow(op, unit, g, n))
  {
    if n > 0 {
      PowClosed(op, unit, inv, g, n - 1);
    }
  }

  /** Exponents add: g^(m+n) == g^m * g^n. */
  lemma {:induction false} PowAdd<T(!new)>(op: (T, T) -> T, unit: T, inv: T -> bool, g: T, m: nat, n: nat)
    requires IsMonoid(op, unit, inv) && inv(g)
    ensures Pow(op, unit, g, m + n) == op(Pow(op, unit, g, m), Pow(op, unit, g, n))
  {
    var b := Pow(op, unit, g, n);
    PowClosed(op, unit, inv, g, n);
    if m == 0 {
      assert op(unit, b) == b;
    } else {
      var a := Pow(op, unit, g, m - 1);
      assert Pow(op, unit, g, m + n) == op(op(g, a), b) by {
        PowAdd(op, unit, inv, g, m - 1, n);
        PowClosed(op, unit, inv, g, m - 1);
        assert Pow(op, unit, g, m + n) == op(g, op(a, b));
      }
      assert Pow(op, unit, g, m) == op(g, a);
    }
  }
}
