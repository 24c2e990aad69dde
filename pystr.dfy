// Python's `str` of an int, as f-strings print it: decimal digits, with a leading '-' for a
// negative value.

module PyStr {
  function Digit(d: nat): char
    requires d < 10
  {
    (48 + d) as char
  }

  predicate IsDigit(c: char) {
    '0' <= c <= '9'
  }

  /** `str(i)` for a non-negative int: its decimal digits, most significant first. */
  function Decimal(i: nat): (s: string)
    ensures |s| >= 1 && forall k | 0 <= k < |s| :: IsDigit(s[k])
  {
    if i < 10 then [Digit(i)] else Decimal(i / 10) + [Digit(i % 10)]
  }

  function Pow10(k: nat): (r: nat)
    ensures r >= 1
  {
    if k == 0 then 1 else 10 * Pow10(k - 1)
  }

  /** A number of at least 10^k has more than k digits. */
  lemma {:induction false} DecimalLength(i: nat, k: nat)
    requires i >= Pow10(k)
    ensures |Decimal(i)| >= k + 1
  {
    if k > 0 {
      DecimalLength(i / 10, k - 1);
    }
  }

  /** Distinct numbers print differently. */
  lemma {:induction false} DecimalInjective(a: nat, b: nat)
    requires Decimal(a) == Decimal(b)
    ensures a == b
    decreases a
  {
    if a >= 10 || b >= 10 {
      DecimalLength(a, if a >= 10 then 1 else 0);
      DecimalLength(b, if b >= 10 then 1 else 0);
      var da, db := Decimal(a), Decimal(b);
      assert da[..|da| - 1] == Decimal(a / 10) && db[..|db| - 1] == Decimal(b / 10);
      assert da[|da| - 1] == Digit(a % 10) && db[|db| - 1] == Digit(b % 10);
      DecimalInjective(a / 10, b / 10);
    }
  }

  /** `str(i)` for any int. */
  function Str(i: int): (s: string)
    ensures |s| >= 1 && forall k | 0 <= k < |s| :: IsDigit(s[k]) || (k == 0 && s[k] == '-')
  {
    if i < 0 then "-" + Decimal(-i) else Decimal(i)
  }

  /** A printed int starts with '-' exactly when it is negative. */
  lemma StrSign(i: int)
    ensures Str(i)[0] == '-' <==> i < 0
  {
    if i >= 0 {
      assert IsDigit(Decimal(i)[0]);
    }
  }

  /** Distinct ints print differently. */
  lemma {:induction false} StrInjective(a: int, b: int)
    requires Str(a) == Str(b)
    ensures a == b
  {
    StrSign(a);
    StrSign(b);
    if a < 0 {
      assert Decimal(-a) == Str(a)[1..] && Decimal(-b) == Str(b)[1..];
      DecimalInjective(-a, -b);
    } else {
      DecimalInjective(a, b);
    }
  }
}
