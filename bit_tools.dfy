// Bits of integers (cirq_qubitization/bit_tools.py), and Python's binary formatting
// f'{n:0{width}b}', which the source uses to produce them.

module BitTools {
  import opened Wrappers
  import PyInt

  function Pow2(n: nat): (r: nat)
    ensures r >= 1
  {
    if n == 0 then 1 else 2 * Pow2(n - 1)
  }

  /** Python's `int.bit_length` for a non-negative value. */
  function BitLengthNat(v: nat): nat {
    if v == 0 then 0 else 1 + BitLengthNat(v / 2)
  }

  /** Python's `int.bit_length`: the bits of |v|. */
  function BitLength(v: int): nat {
    BitLengthNat(PyInt.Abs(v))
  }

  /** A value has at most w bits exactly when it is below 2^w. */
  lemma {:induction false} BitLengthFits(v: nat, w: nat)
    ensures BitLengthNat(v) <= w <==> v < Pow2(w)
  {
    if v != 0 && w != 0 {
      BitLengthFits(v / 2, w - 1);
    }
  }

  // ---------------------------------------------------------------------------------
  // Binary formatting

  predicate IsBinary(s: string) {
    forall i | 0 <= i < |s| :: s[i] == '0' || s[i] == '1'
  }

  function DigitOf(b: nat): (c: char)
    requires b < 2
  {
    if b == 0 then '0' else '1'
  }

  /** The binary digits of v with no leading zero: "0" for zero. */
  function BinDigits(v: nat): (s: string)
    ensures IsBinary(s) && |s| >= 1
  {
    if v < 2 then [DigitOf(v)] else BinDigits(v / 2) + [DigitOf(v % 2)]
  }

  /** The value of a string of binary digits, most significant first: `int(s, 2)` for a
      non-empty s. */
  function BinValue(s: string): nat
    requires IsBinary(s)
  {
    if s == [] then 0 else 2 * BinValue(s[..|s| - 1]) + (if s[|s| - 1] == '1' then 1 else 0)
  }

  function Zeros(k: nat): (s: string)
    ensures |s| == k && IsBinary(s)
  {
    seq(k, _ => '0')
  }

  /** The digits of v read back give v, and there are as many as v has bits (one for 0). */
  lemma {:induction false} BinDigitsRoundTrip(v: nat)
    ensures BinValue(BinDigits(v)) == v
    ensures |BinDigits(v)| == if v == 0 then 1 else BitLengthNat(v)
  {
    if v >= 2 {
      var s := BinDigits(v);
      assert s[..|s| - 1] == BinDigits(v / 2);
      BinDigitsRoundTrip(v / 2);
    }
  }

  /** Leading zeros do not change the value. */
  lemma {:induction false} BinValueZeros(k: nat, s: string)
    requires IsBinary(s)
    ensures IsBinary(Zeros(k) + s) && BinValue(Zeros(k) + s) == BinValue(s)
  {
    if s == [] {
      assert Zeros(k) + s == Zeros(k);
      ZerosValue(k);
    } else {
      var t := Zeros(k) + s;
      assert t[..|t| - 1] == Zeros(k) + s[..|s| - 1];
      BinValueZeros(k, s[..|s| - 1]);
    }
  }

  lemma {:induction false} ZerosValue(k: nat)
    ensures BinValue(Zeros(k)) == 0
  {
    if k > 0 {
      assert Zeros(k)[..k - 1] == Zeros(k - 1);
      ZerosValue(k - 1);
    }
  }

  /** f'{n:0{width}b}': the binary digits of |n| after a '-' for negative n, zero-padded so
      that the whole string has at least width characters; a negative width is not a valid
      format and raises ValueError (None). */
  function FormatBin(n: int, width: int): (r: Option<string>)
    ensures r.Some? <==> width >= 0
    ensures r.Some? && n >= 0 ==> IsBinary(r.value) && |r.value| == if |BinDigits(n)| < width then width else |BinDigits(n)|
    ensures r.Some? && n < 0 ==> |r.value| >= 2 && r.value[0] == '-' && IsBinary(r.value[1..])
  {
    if width < 0 then None
    else if n >= 0 then
      var d := BinDigits(n);
      Some(if |d| < width then Zeros(width - |d|) + d else d)
    else
      var d := BinDigits(-n);
      var body := if 1 + |d| < width then Zeros(width - 1 - |d|) + d else d;
      assert IsBinary(body);
      Some(['-'] + body)
  }

  /** The formatted digits of a non-negative n read back give n. */
  lemma FormatBinValue(n: nat, width: nat)
    ensures IsBinary(FormatBin(n, width).value) && BinValue(FormatBin(n, width).value) == n
  {
    var d := BinDigits(n);
    BinDigitsRoundTrip(n);
    if |d| < width {
      BinValueZeros(width - |d|, d);
    }
  }

  // ---------------------------------------------------------------------------------
  // Bit sequences

  predicate IsBits(b: seq<int>) {
    forall i | 0 <= i < |b| :: b[i] == 0 || b[i] == 1
  }

  /** The value of a bit sequence, most significant bit first. */
  function Value(b: seq<int>): int {
    if b == [] then 0 else 2 * Value(b[..|b| - 1]) + b[|b| - 1]
  }

  /** `[int(c) for c in s]` for a string of binary digits. */
  function ToBits(s: string): (b: seq<int>)
    requires IsBinary(s)
    ensures |b| == |s| && IsBits(b)
  {
    seq(|s|, i requires 0 <= i < |s| => if s[i] == '1' then 1 else 0)
  }

  lemma {:induction false} ToBitsValue(s: string)
    requires IsBinary(s)
    ensures Value(ToBits(s)) == BinValue(s)
  {
    if s != [] {
      assert ToBits(s)[..|s| - 1] == ToBits(s[..|s| - 1]);
      ToBitsValue(s[..|s| - 1]);
    }
  }

  /** The width-bit big-endian form of v (only its low width bits). */
  function FixedBits(v: nat, width: nat): (b: seq<int>)
    ensures |b| == width && IsBits(b)
  {
    if width == 0 then [] else FixedBits(v / 2, width - 1) + [v % 2]
  }

  lemma {:induction false} FixedBitsValue(v: nat, width: nat)
    ensures Value(FixedBits(v, width)) == v % Pow2(width)
  {
    if width > 0 {
      var b := FixedBits(v, width);
      assert b[..width - 1] == FixedBits(v / 2, width - 1);
      FixedBitsValue(v / 2, width - 1);
      ModTwice(v, Pow2(width - 1));
    }
  }

  /** (v / 2) % m, doubled, plus the low bit of v is v % (2m). */
  lemma ModTwice(v: nat, m: nat)
    requires m >= 1
    ensures 2 * ((v / 2) % m) + v % 2 == v % (2 * m)
  {
    var q := (v / 2) / m;
    var r := (v / 2) % m;
    assert v / 2 == q * m + r;
    assert v == (2 * m) * q + (2 * r + v % 2);
    assert 0 <= 2 * r + v % 2 < 2 * m;
    DivModUnique(v, 2 * m, q, 2 * r + v % 2);
  }

  lemma DivModUnique(v: int, m: int, q: int, r: int)
    requires m >= 1 && v == m * q + r && 0 <= r < m
    ensures v % m == r && v / m == q
  {
    var q' := v / m;
    var r' := v % m;
    assert v == m * q' + r';
    assert m * (q - q') == r' - r;
    MulBounds(m, q - q');
  }

  /** A multiple of m strictly between -m and m is zero. */
  lemma MulBounds(m: int, d: int)
    requires m >= 1 && -m < m * d < m
    ensures d == 0
  {
    if d >= 1 {
      MulAtLeast(m, d);
      assert false;
    } else if d <= -1 {
      assert m * (-d) == -(m * d);
      MulAtLeast(m, -d);
      assert false;
    }
  }

  lemma {:induction false} MulAtLeast(m: int, k: int)
    requires m >= 0 && k >= 1
    ensures m * k >= m
    decreases k
  {
    if k > 1 {
      MulAtLeast(m, k - 1);
      assert m * k == m * (k - 1) + m;
    }
  }

  lemma SmallMod(v: int, m: int)
    requires 0 <= v < m
    ensures v % m == v
  {
    DivModUnique(v, m, 0, v);
  }

  /** A bit sequence of length w has a value below 2^w. */
  lemma {:induction false} ValueBound(b: seq<int>)
    requires IsBits(b)
    ensures 0 <= Value(b) < Pow2(|b|)
  {
    if b != [] {
      ValueBound(b[..|b| - 1]);
    }
  }

  /** Bit sequences of one length with one value are equal. */
  lemma {:induction false} ValueInjective(a: seq<int>, b: seq<int>)
    requires IsBits(a) && IsBits(b) && |a| == |b| && Value(a) == Value(b)
    ensures a == b
  {
    if a != [] {
      var n := |a|;
      assert a[n - 1] == b[n - 1];
      ValueInjective(a[..n - 1], b[..n - 1]);
      assert a == a[..n - 1] + [a[n - 1]];
      assert b == b[..n - 1] + [b[n - 1]];
    }
  }

  // ---------------------------------------------------------------------------------
  // iter_bits

  datatype BitsError =
    | ExceedsWidth   // ValueError: the value exceeds the width
    | Negative       // ValueError: the value is negative
    | NegativeShift  // ValueError: 1 << width for a negative width

  /** `iter_bits` as written: f'{val:0{width}b}' has one digit, not zero, for width 0. */
  function IterBitsAsWritten(val: int, width: int): (r: Result<seq<int>, BitsError>)
  {
    if BitLength(val) > width then Err(ExceedsWidth)
    else if val < 0 then Err(Negative)
    else Ok(ToBits(FormatBin(val, width).value))
  }

  /** As written, iter_bits accepts exactly the values of at most width bits and gives
      their big-endian bits; there are width of them, except that width 0 gives one. */
  lemma IterBitsAsWrittenSpec(val: int, width: int)
    ensures IterBitsAsWritten(val, width).Ok? <==> width >= 0 && 0 <= val < Pow2(width)
    ensures IterBitsAsWritten(val, width).Ok? ==>
      var b := IterBitsAsWritten(val, width).value;
      IsBits(b) && Value(b) == val && |b| == (if width == 0 then 1 else width)
  {
    if width >= 0 && val >= 0 {
      BitLengthFits(val, width);
    }
    if IterBitsAsWritten(val, width).Ok? {
      var w: nat := width;
      BitLengthFits(val, w);
      BinDigitsRoundTrip(val);
      FormatBinValue(val, w);
      ToBitsValue(FormatBin(val, w).value);
    }
  }

  /** The input that shows it: iter_bits(0, 0) yields one bit. */
  lemma IterBitsAsWrittenWidthZero()
    ensures IterBitsAsWritten(0, 0) == Ok([0])
  {
    assert BitLength(0) == 0;
    assert FormatBin(0, 0) == Some("0");
    assert ToBits("0") == [0];
  }

  /** `iter_bits`, yielding exactly width bits. */
  function IterBits(val: int, width: int): (r: Result<seq<int>, BitsError>)
  {
    if BitLength(val) > width then Err(ExceedsWidth)
    else if val < 0 then Err(Negative)
    else Ok(FixedBits(val, width))
  }

  /** iter_bits raises exactly for a negative value or one of more than width bits, and
      otherwise yields width bits whose big-endian value is val. */
  lemma IterBitsSpec(val: int, width: int)
    ensures IterBits(val, width).Ok? <==> width >= 0 && 0 <= val < Pow2(width)
    ensures IterBits(val, width).Err? && val < 0 && BitLength(val) <= width ==> IterBits(val, width).error == Negative
    ensures IterBits(val, width).Ok? ==>
      var b := IterBits(val, width).value;
      IsBits(b) && |b| == width && Value(b) == val
  {
    if width >= 0 && val >= 0 {
      BitLengthFits(val, width);
    }
    if IterBits(val, width).Ok? {
      FixedBitsValue(val, width);
      SmallMod(val, Pow2(width));
    }
  }

  /** For every width of at least one bit, the two agree. */
  lemma IterBitsAgree(val: int, width: int)
    requires width >= 1
    ensures IterBits(val, width) == IterBitsAsWritten(val, width)
  {
    IterBitsSpec(val, width);
    IterBitsAsWrittenSpec(val, width);
    if IterBits(val, width).Ok? {
      ValueInjective(IterBits(val, width).value, IterBitsAsWritten(val, width).value);
    }
  }

  // ---------------------------------------------------------------------------------
  // iter_bits_twos_complement

  /** `iter_bits_twos_complement` as written: the width check compares half the bit length
      with the width, and the bits are those of val & (2^width - 1). */
  function IterBitsTwosAsWritten(val: int, width: int): (r: Result<seq<int>, BitsError>)
  {
    if PyInt.FloorDiv(BitLength(val) - 1, 2) > width then Err(ExceedsWidth)
    else if width < 0 then Err(NegativeShift)
    else Ok(ToBits(FormatBin(val % Pow2(width), width).value))
  }

  /** As written, the result is the big-endian form of the low width bits of val. */
  lemma IterBitsTwosAsWrittenSpec(val: int, width: int)
    ensures IterBitsTwosAsWritten(val, width).Ok? ==>
      var b := IterBitsTwosAsWritten(val, width).value;
      width >= 0 && IsBits(b) && Value(b) == val % Pow2(width) && |b| == (if width == 0 then 1 else width)
  {
    if IterBitsTwosAsWritten(val, width).Ok? {
      var w: nat := width;
      var m := val % Pow2(w);
      BitLengthFits(m, w);
      BinDigitsRoundTrip(m);
      FormatBinValue(m, w);
      ToBitsValue(FormatBin(m, w).value);
    }
  }

  /** The input that shows it: 100 needs seven bits, yet with width 4 the check passes and
      the bits of 100 mod 16 = 4 come out. */
  lemma IterBitsTwosAsWrittenTruncates()
    ensures 100 >= Pow2(4) && IterBitsTwosAsWritten(100, 4) == Ok([0, 1, 0, 0])
  {
    BitLengthHundred();
    assert Pow2(4) == 16;
    assert 100 % 16 == 4;
    FormatFourInFour();
  }

  lemma BitLengthHundred()
    ensures BitLength(100) == 7
  {
    assert BitLengthNat(100) == 1 + BitLengthNat(50);
    assert BitLengthNat(50) == 1 + BitLengthNat(25);
    assert BitLengthNat(25) == 1 + BitLengthNat(12);
    assert BitLengthNat(12) == 1 + BitLengthNat(6);
    assert BitLengthNat(6) == 1 + BitLengthNat(3);
    assert BitLengthNat(3) == 1 + BitLengthNat(1);
  }

  lemma FormatFourInFour()
    ensures ToBits(FormatBin(4, 4).value) == [0, 1, 0, 0]
  {
    assert BinDigits(4) == "100" by {
      assert BinDigits(2) == "10";
    }
    assert FormatBin(4, 4).value == "0100";
    assert ToBits("0100") == [0, 1, 0, 0];
  }

  /** val fits in width bits: as an unsigned value, or in two's complement when negative. */
  predicate FitsTwos(val: int, width: int) {
    width >= 0 && (if val >= 0 then val < Pow2(width) else width >= 1 && -val <= Pow2(width - 1))
  }

  /** `iter_bits_twos_complement`, refusing the values that do not fit. */
  function IterBitsTwos(val: int, width: int): (r: Result<seq<int>, BitsError>)
  {
    if !FitsTwos(val, width) then Err(ExceedsWidth)
    else Ok(FixedBits(val % Pow2(width), width))
  }

  /** The two's-complement bits raise exactly when val does not fit, and otherwise give
      back val: as an unsigned value when val >= 0, and with the top bit set and value
      val + 2^width when val < 0. */
  lemma IterBitsTwosSpec(val: int, width: int)
    ensures IterBitsTwos(val, width).Ok? <==> FitsTwos(val, width)
    ensures IterBitsTwos(val, width).Ok? ==>
      var b := IterBitsTwos(val, width).value;
      && IsBits(b) && |b| == width
      && (val >= 0 ==> Value(b) == val)
      && (val < 0 ==> Value(b) == val + Pow2(width) && b[0] == 1)
  {
    if FitsTwos(val, width) {
      if val >= 0 {
        TwosNonnegative(val, width);
      } else {
        TwosNegative(val, width);
      }
    }
  }

  lemma TwosNonnegative(val: nat, w: nat)
    requires val < Pow2(w)
    ensures Value(FixedBits(val % Pow2(w), w)) == val
  {
    FixedBitsValue(val % Pow2(w), w);
    SmallMod(val, Pow2(w));
  }

  lemma TwosNegative(val: int, w: nat)
    requires w >= 1 && val < 0 <= val + Pow2(w - 1)
    ensures var b := FixedBits(val % Pow2(w), w); Value(b) == val + Pow2(w) && b[0] == 1
  {
    var m := Pow2(w);
    assert m == 2 * Pow2(w - 1);
    NegMod(val, m);
    var b := FixedBits(val + m, w);
    FixedBitsValue(val + m, w);
    SmallMod(val + m, m);
    TopBit(b);
  }

  /** A value a little below zero wraps to itself plus the modulus. */
  lemma NegMod(v: int, m: int)
    requires m >= 1 && -m <= v < 0
    ensures v % m == v + m
  {
    assert v == m * (-1) + (v + m);
    DivModUnique(v, m, -1, v + m);
  }

  /** A bit sequence whose value reaches half its range has its top bit set. */
  lemma {:induction false} TopBit(b: seq<int>)
    requires IsBits(b) && |b| >= 1 && Value(b) >= Pow2(|b| - 1)
    ensures b[0] == 1
  {
    if |b| == 1 {
      assert b == [b[0]];
      assert Value(b) == 2 * Value(b[..0]) + b[0];
      assert b[..0] == [];
    } else {
      var p := b[..|b| - 1];
      assert Value(b) == 2 * Value(p) + b[|b| - 1];
      assert Pow2(|b| - 1) == 2 * Pow2(|p| - 1);
      assert Value(p) >= Pow2(|p| - 1);
      TopBit(p);
      assert b[0] == p[0];
    }
  }

  /** For a non-negative value of at most width bits, the two's-complement bits are the
      plain bits, both as written and as corrected. */
  lemma TwosAgreesWithPlain(val: int, width: int)
    requires 0 <= val && BitLength(val) <= width
    ensures IterBitsTwos(val, width) == IterBits(val, width)
    ensures IterBitsTwosAsWritten(val, width) == IterBitsAsWritten(val, width)
  {
    var w: nat := width;
    BitLengthFits(val, w);
    SmallMod(val, Pow2(w));
    assert PyInt.FloorDiv(BitLength(val) - 1, 2) <= w;
  }

  /** The examples: -2 and -3 in four bits. */
  lemma TwosExamples()
    ensures IterBitsTwos(-2, 4) == Ok([1, 1, 1, 0])
    ensures IterBitsTwos(-3, 4) == Ok([1, 1, 0, 1])
  {
    assert Pow2(4) == 16 && Pow2(3) == 8;
    assert FixedBits(14, 4) == [1, 1, 1, 0] by {
      assert FixedBits(14, 4) == FixedBits(7, 3) + [0];
      assert FixedBits(7, 3) == FixedBits(3, 2) + [1];
      assert FixedBits(3, 2) == FixedBits(1, 1) + [1];
      assert FixedBits(1, 1) == FixedBits(0, 0) + [1];
    }
    assert FixedBits(13, 4) == [1, 1, 0, 1] by {
      assert FixedBits(13, 4) == FixedBits(6, 3) + [1];
      assert FixedBits(6, 3) == FixedBits(3, 2) + [0];
      assert FixedBits(3, 2) == FixedBits(1, 1) + [1];
      assert FixedBits(1, 1) == FixedBits(0, 0) + [1];
    }
  }

  // ---------------------------------------------------------------------------------
  // Bit fields

  /** For a value of at most w >= 1 bits, the formatted digits are its w-bit form. */
  lemma FormatBinBits(n: nat, w: nat)
    requires w >= 1 && n < Pow2(w)
    ensures IsBinary(FormatBin(n, w).value) && ToBits(FormatBin(n, w).value) == FixedBits(n, w)
  {
    IterBitsAgree(n, w);
    IterBitsSpec(n, w);
    IterBitsAsWrittenSpec(n, w);
  }

  /** Halving and then dividing by 2^k divides by 2^(k+1). */
  lemma HalfDiv(v: nat, k: nat)
    ensures (v / 2) / Pow2(k) == v / Pow2(k + 1)
  {
    var m := Pow2(k);
    var q := (v / 2) / m;
    var r := (v / 2) % m;
    assert v / 2 == m * q + r;
    assert v == (2 * m) * q + (2 * r + v % 2);
    DivModUnique(v, 2 * m, q, 2 * r + v % 2);
  }

  /** The first j of w bits are the j-bit form of v shifted right by w - j. */
  lemma {:induction false} FixedBitsPrefix(v: nat, w: nat, j: nat)
    requires j <= w
    ensures FixedBits(v, w)[..j] == FixedBits(v / Pow2(w - j), j)
    decreases w
  {
    if j < w {
      var b := FixedBits(v, w);
      assert b[..j] == FixedBits(v / 2, w - 1)[..j];
      FixedBitsPrefix(v / 2, w - 1, j);
      HalfDiv(v, w - 1 - j);
    } else {
      assert v / Pow2(0) == v;
    }
  }

  /** The last k of w bits are the k-bit form of v. */
  lemma {:induction false} FixedBitsSuffix(v: nat, w: nat, k: nat)
    requires k <= w
    ensures FixedBits(v, w)[w - k..] == FixedBits(v, k)
  {
    if k > 0 {
      var b := FixedBits(v, w);
      assert b[w - k..] == FixedBits(v / 2, w - 1)[w - 1 - (k - 1)..] + [v % 2];
      FixedBitsSuffix(v / 2, w - 1, k - 1);
    }
  }

  /** Bits i to j of the w-bit form of v are field (v / 2^(w-j)) mod 2^(j-i), in j - i bits. */
  lemma FixedBitsField(v: nat, w: nat, i: nat, j: nat)
    requires i <= j <= w
    ensures FixedBits(v, w)[i..j] == FixedBits(v / Pow2(w - j), j - i)
    ensures Value(FixedBits(v, w)[i..j]) == (v / Pow2(w - j)) % Pow2(j - i)
  {
    var b := FixedBits(v, w);
    assert b[i..j] == b[..j][j - (j - i)..];
    FixedBitsPrefix(v, w, j);
    FixedBitsSuffix(v / Pow2(w - j), j, j - i);
    FixedBitsValue(v / Pow2(w - j), j - i);
  }

  /** Reading a slice of digits is reading the slice of their bits. */
  lemma BinValueSlice(s: string, i: nat, j: nat)
    requires IsBinary(s) && i <= j <= |s|
    ensures IsBinary(s[i..j]) && BinValue(s[i..j]) == Value(ToBits(s)[i..j])
  {
    assert ToBits(s[i..j]) == ToBits(s)[i..j];
    ToBitsValue(s[i..j]);
  }
}
