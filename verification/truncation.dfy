/** Dynamic truncation of the HMAC and the decimal one-time password
    (ocra.cpp:188-215): a 31-bit code is read at the offset the last byte
    names, reduced modulo a power of ten and printed with leading zeros. */
module Truncation {
  import opened Results
  import opened Ascii
  import opened Bytes
  import opened SuiteModel

  const INT32_MAX: nat := 0x7FFF_FFFF

  /** `hash[hash.size() - 1] & 0xf`. */
  function DynamicOffset(hash: seq<Byte>): (o: nat)
    requires |hash| > 0
    ensures o < 16
  {
    hash[|hash| - 1] % 16
  }

  /** `((h[o] & 0x7f) << 24) | (h[o+1] << 16) | (h[o+2] << 8) | h[o+3]`:
      the four bytes at the offset, big-endian, with the top bit cleared. */
  function DynamicBinary(hash: seq<Byte>): (b: nat)
    requires |hash| >= 20
    ensures b <= INT32_MAX
    ensures var o := DynamicOffset(hash);
      var a: nat, b1: nat, c: nat, d: nat := hash[o] % 128, hash[o + 1], hash[o + 2], hash[o + 3];
      b == a * 0x100_0000 + b1 * 0x1_0000 + c * 0x100 + d
  {
    var o := DynamicOffset(hash);
    var a: nat, b: nat, c: nat, d: nat := hash[o] % 128, hash[o + 1], hash[o + 2], hash[o + 3];
    FourBytesOr(a, b, c, d);
    BitOr(BitOr(BitOr(a * 0x100_0000, b * 0x1_0000), c * 0x100), d)
  }

  /** The four shifted bytes occupy disjoint bits, so the ORs are sums, and
      with the top bit cleared the sum fits in 31 bits. */
  lemma FourBytesOr(a: nat, b: nat, c: nat, d: nat)
    requires a < 128 && b < 256 && c < 256 && d < 256
    ensures BitOr(BitOr(BitOr(a * 0x100_0000, b * 0x1_0000), c * 0x100), d)
      == a * 0x100_0000 + b * 0x1_0000 + c * 0x100 + d
    ensures a * 0x100_0000 + b * 0x1_0000 + c * 0x100 + d <= INT32_MAX
  {
    Pow2Bytes();
    var ab := a * 0x100 + b;
    var abc := ab * 0x100 + c;
    OrAt(a, b * 0x1_0000, 24, 0x100_0000);
    var x := BitOr(a * 0x100_0000, b * 0x1_0000);
    assert x == ab * 0x1_0000;
    OrAt(ab, c * 0x100, 16, 0x1_0000);
    var y := BitOr(x, c * 0x100);
    assert y == abc * 0x100;
    OrAt(abc, d, 8, 0x100);
    assert BitOr(y, d) == abc * 0x100 + d;
  }

  lemma Pow2Bytes()
    ensures Pow2(8) == 0x100 && Pow2(16) == 0x1_0000 && Pow2(24) == 0x100_0000
  {
    PowAdd(8, 8);
    PowAdd(16, 8);
  }

  /** `BitOrDisjoint` with the power of two written out. */
  lemma OrAt(x: nat, y: nat, k: nat, p: nat)
    requires p == Pow2(k) && y < p
    ensures BitOr(x * p, y) == x * p + y
  {
    BitOrDisjoint(x, y, k);
  }

  /** `x < n` scaled by `w` stays below `n * w`, minus the last step. */
  lemma ShiftedBelow(x: nat, w: nat, n: nat)
    requires x < n && w > 0
    ensures x * w <= n * w - w
  {
    MulSign(n - x, w);
  }

  lemma {:induction false} PowAdd(m: nat, n: nat)
    ensures Pow2(m + n) == Pow2(m) * Pow2(n)
  {
    if n > 0 {
      PowAdd(m, n - 1);
    }
  }

  /** The `DIGITS` table (ocra.cpp:201-203), indexed by the digit count. */
  function Modulus(digits: nat): (m: nat)
    requires ValidDigits(digits)
    ensures m >= 1
    ensures 4 <= digits <= 9 ==> m == Pow10(digits)
  {
    if digits == 0 then 1
    else if digits == 4 then 10000
    else if digits == 5 then 100000
    else if digits == 6 then 1000000
    else if digits == 7 then 10000000
    else if digits == 8 then 100000000
    else if digits == 9 then 1000000000
    else INT32_MAX
  }

  /** The last `n` decimal digits of `v`, with leading zeros. */
  function PadDecimal(v: nat, n: nat): (s: string)
    ensures |s| == n
  {
    if n == 0 then [] else PadDecimal(v / 10, n - 1) + [DigitChar(v % 10)]
  }

  /** The padded text spells `v mod 10^n`. */
  lemma {:induction false} PadDecimalValue(v: nat, n: nat)
    ensures AllDigits(PadDecimal(v, n)) && DecValue(PadDecimal(v, n)) == v % Pow10(n)
  {
    if n > 0 {
      var s := PadDecimal(v, n);
      PadDecimalValue(v / 10, n - 1);
      assert s[..n - 1] == PadDecimal(v / 10, n - 1);
      ModTen(v, Pow10(n - 1));
    }
  }

  /** `((v / 10) mod m) * 10 + v mod 10 == v mod 10m`. */
  lemma ModTen(v: nat, m: nat)
    requires m >= 1
    ensures (v / 10) % m * 10 + v % 10 == v % (10 * m)
  {
    var q, r := (v / 10) / m, (v / 10) % m;
    assert v / 10 == q * m + r;
    assert v == q * (10 * m) + (r * 10 + v % 10);
    DivUnique(v, 10 * m, q, r * 10 + v % 10);
  }

  /** Only the last `n` digits matter. */
  lemma {:induction false} PadDecimalMod(v: nat, n: nat)
    ensures PadDecimal(v % Pow10(n), n) == PadDecimal(v, n)
    decreases n
  {
    if n > 0 {
      var m := Pow10(n - 1);
      assert Pow10(n) == 10 * m;
      var w := v % (10 * m);
      DivDivMod(v, m);
      calc {
        PadDecimal(w, n);
        PadDecimal(w / 10, n - 1) + [DigitChar(w % 10)];
        { PadDecimalMod(w / 10, n - 1); }
        PadDecimal((w / 10) % m, n - 1) + [DigitChar(v % 10)];
        { PadDecimalMod(v / 10, n - 1); }
        PadDecimal(v / 10, n - 1) + [DigitChar(v % 10)];
        PadDecimal(v, n);
      }
    }
  }

  /** Reducing first keeps the last digit and the quotient's remainder. */
  lemma DivDivMod(v: nat, m: nat)
    requires m >= 1
    ensures (v % (10 * m)) % 10 == v % 10
    ensures (v % (10 * m)) / 10 % m == (v / 10) % m
  {
    var w := v % (10 * m);
    var q := v / (10 * m);
    assert v == q * (10 * m) + w;
    var a, b := w / 10, w % 10;
    assert w == a * 10 + b && a < m;
    assert v == (q * m + a) * 10 + b;
    DivUnique(v, 10, q * m + a, b);
    DivUnique(v / 10, m, q, a);
  }

  /** The decimal text of `v` without leading zeros ("0" for zero). */
  function DecimalText(v: nat): (s: string)
    ensures |s| >= 1
  {
    if v < 10 then [DigitChar(v)] else DecimalText(v / 10) + [DigitChar(v % 10)]
  }

  lemma {:induction false} DecimalTextValue(v: nat)
    ensures AllDigits(DecimalText(v)) && DecValue(DecimalText(v)) == v
    ensures |DecimalText(v)| > 1 ==> DecimalText(v)[0] != '0'
  {
    var s := DecimalText(v);
    if v < 10 {
      assert s[..0] == [];
    } else {
      DecimalTextValue(v / 10);
      assert s[..|s| - 1] == DecimalText(v / 10);
      if v / 10 < 10 {
        assert s[0] == DigitChar(v / 10);
      } else {
        assert s[0] == DecimalText(v / 10)[0];
      }
    }
  }

  /** The formatting loop of ocra.cpp:205-214, after `otp = binary % DIGITS[digits]`:
      a string of `digits ? digits : 10` zeros, filled from the right while the
      value is non-zero, and `result.substr(i)`. When `digits` is zero the loop
      never runs, `i` is -1, and `substr` throws; the model returns nothing. */
  method FormatOtp(otp: nat, digits: nat) returns (r: Option<string>)
    ensures digits == 0 ==> r == None
    ensures digits > 0 ==> r == Some(PadDecimal(otp, digits))
  {
    if digits == 0 {
      return None;
    }
    var result := ZeroDigits(digits);
    var v := otp;
    var i: int := digits - 1;
    while i >= 0 && v != 0
      invariant -1 <= i < digits
      invariant |result| == digits
      invariant v == DropDigits(otp, digits - 1 - i)
      invariant result == ZeroDigits(i + 1) + PadDecimal(otp, digits - 1 - i)
    {
      ghost var next := FillStep(otp, digits - 1 - i, i, result);
      result := result[i := DigitChar(v % 10)];
      v := v / 10;
      i := i - 1;
      assert result == next;
    }
    var k := digits - 1 - i;
    if i >= 0 {
      assert v == 0;
      PadDecimalZero(i + 1);
      PadDecimalSplit(otp, i + 1, k);
      assert PadDecimal(DropDigits(otp, k), i + 1) == ZeroDigits(i + 1);
      assert (i + 1) + k == digits;
      assert result == PadDecimal(otp, digits);
    } else {
      assert result == [] + PadDecimal(otp, digits);
    }
    assert result == PadDecimal(otp, digits);
    r := Some(result);
  }

  /** One pass of the formatting loop: the digit `k` places from the right
      overwrites the zero at `i`, and the remaining value loses a digit. */
  lemma FillStep(otp: nat, k: nat, i: nat, result: string) returns (next: string)
    requires result == ZeroDigits(i + 1) + PadDecimal(otp, k)
    ensures next == result[i := DigitChar(DropDigits(otp, k) % 10)]
    ensures next == ZeroDigits(i) + PadDecimal(otp, k + 1)
    ensures DropDigits(otp, k) / 10 == DropDigits(otp, k + 1)
  {
    next := result[i := DigitChar(DropDigits(otp, k) % 10)];
    PadDecimalStep(otp, k);
    DropDigitsLast(otp, k);
    assert ZeroDigits(i + 1) == ZeroDigits(i) + ['0'];
  }

  /** `v` without its last `k` decimal digits, that is `v / 10^k`. */
  function DropDigits(v: nat, k: nat): (q: nat)
  {
    if k == 0 then v else DropDigits(v / 10, k - 1)
  }

  /** Dropping digits one at a time is dividing by a power of ten. */
  lemma {:induction false} DropDigitsValue(v: nat, k: nat)
    ensures DropDigits(v, k) == v / Pow10(k)
  {
    if k > 0 {
      DropDigitsValue(v / 10, k - 1);
      DivDiv(v, 10, Pow10(k - 1));
    }
  }

  /** The last digit dropped is the one after the first `k`. */
  lemma {:induction false} DropDigitsLast(v: nat, k: nat)
    ensures DropDigits(v, k) / 10 == DropDigits(v, k + 1)
  {
    if k > 0 {
      DropDigitsLast(v / 10, k - 1);
    }
  }

  /** `n` characters '0'. */
  function ZeroDigits(n: nat): (s: string)
    ensures |s| == n
    ensures forall k :: 0 <= k < n ==> s[k] == '0'
  {
    seq(n, _ => '0')
  }

  /** One more digit on the left. */
  lemma PadDecimalStep(v: nat, k: nat)
    ensures PadDecimal(v, k + 1) == [DigitChar(DropDigits(v, k) % 10)] + PadDecimal(v, k)
  {
    PadDecimalSplit(v, 1, k);
  }

  /** Padding zero gives zeros. */
  lemma {:induction false} PadDecimalZero(n: nat)
    ensures PadDecimal(0, n) == ZeroDigits(n)
  {
    if n > 0 {
      PadDecimalZero(n - 1);
    }
  }

  /** The high `a` digits and the low `b` digits. */
  lemma {:induction false} PadDecimalSplit(v: nat, a: nat, b: nat)
    ensures PadDecimal(v, a + b) == PadDecimal(DropDigits(v, b), a) + PadDecimal(v, b)
    decreases b
  {
    if b > 0 {
      var d := [DigitChar(v % 10)];
      var high := PadDecimal(DropDigits(v / 10, b - 1), a);
      var low := PadDecimal(v / 10, b - 1);
      PadDecimalSplit(v / 10, a, b - 1);
      assert PadDecimal(v / 10, a + b - 1) == high + low;
      assert DropDigits(v, b) == DropDigits(v / 10, b - 1);
      assert PadDecimal(v, a + b) == PadDecimal(v / 10, a + b - 1) + d;
      assert PadDecimal(v, b) == low + d;
      assert (high + low) + d == high + (low + d);
    } else {
      assert PadDecimal(v, a) + PadDecimal(v, 0) == PadDecimal(v, a);
    }
  }

  /** The library's truncation: the code modulo `DIGITS[digits]`, printed
      with `digits` places. `None` stands for the `std::out_of_range` that
      `substr(-1)` raises when `digits` is zero. */
  function Truncate(hash: seq<Byte>, digits: nat): (r: Option<string>)
    requires |hash| >= 20 && ValidDigits(digits)
    ensures r.None? <==> digits == 0
    ensures r.Some? ==> |r.value| == digits
  {
    if digits == 0 then None
    else Some(PadDecimal(DynamicBinary(hash) % Modulus(digits), digits))
  }

  /** As written, truncation throws exactly for zero digits; otherwise the
      password has `digits` decimal digits spelling the code modulo the
      table's entry, which is `INT32_MAX` for ten digits. */
  lemma TruncateSpec(hash: seq<Byte>, digits: nat)
    requires |hash| >= 20 && ValidDigits(digits)
    ensures var r := Truncate(hash, digits); var b := DynamicBinary(hash);
      && (r.None? <==> digits == 0)
      && (r.Some? ==> |r.value| == digits && AllDigits(r.value) && DecValue(r.value) == b % Modulus(digits))
  {
    if digits > 0 {
      var m := Modulus(digits);
      var v := DynamicBinary(hash) % m;
      PadDecimalValue(v, digits);
      ModulusWithinDigits(digits);
      assert v < Pow10(digits);
      SmallMod(v, Pow10(digits));
    }
  }

  /** Every entry of the table has at most `digits` decimal digits. */
  lemma ModulusWithinDigits(digits: nat)
    requires ValidDigits(digits) && digits > 0
    ensures Modulus(digits) <= Pow10(digits)
  {
    if digits == 10 {
      PowTen();
    }
  }

  lemma SmallMod(v: nat, m: nat)
    requires v < m
    ensures v % m == v
  {
  }

  /** Truncation as the digit count evidently means it: `digits` decimal
      digits of the code, or the whole code without padding for zero. */
  function TruncateCorrected(hash: seq<Byte>, digits: nat): (r: string)
    requires |hash| >= 20 && ValidDigits(digits)
    ensures digits > 0 ==> |r| == digits
    ensures digits == 0 ==> |r| >= 1
  {
    if digits == 0 then DecimalText(DynamicBinary(hash)) else PadDecimal(DynamicBinary(hash), digits)
  }

  /** The corrected password has exactly `digits` decimal digits spelling the
      code modulo `10^digits`; with `digits` zero it spells the whole code,
      unpadded. */
  lemma TruncateCorrectedSpec(hash: seq<Byte>, digits: nat)
    requires |hash| >= 20 && ValidDigits(digits)
    ensures var r := TruncateCorrected(hash, digits); var b := DynamicBinary(hash);
      && AllDigits(r)
      && (digits > 0 ==> |r| == digits && DecValue(r) == b % Pow10(digits))
      && (digits == 0 ==> DecValue(r) == b && (|r| > 1 ==> r[0] != '0'))
  {
    var b := DynamicBinary(hash);
    if digits == 0 {
      DecimalTextValue(b);
    } else {
      PadDecimalValue(b, digits);
    }
  }

  /** Ten corrected digits always hold the whole 31-bit code. */
  lemma TenDigitsKeepCode(hash: seq<Byte>)
    requires |hash| >= 20
    ensures AllDigits(TruncateCorrected(hash, 10)) && DecValue(TruncateCorrected(hash, 10)) == DynamicBinary(hash)
  {
    TruncateCorrectedSpec(hash, 10);
    PowTen();
  }

  lemma PowTen()
    ensures Pow10(10) == 10_000_000_000
  {
    assert Pow10(5) == 100_000;
    assert Pow10(10) == 10 * 10 * 10 * 10 * 10 * Pow10(5);
  }

  /** The two truncations agree exactly for 4 to 9 digits: zero digits throw
      instead, and ten digits differ for some code (`DigitsTenWraps`). */
  lemma TruncationsAgree(hash: seq<Byte>, digits: nat)
    requires |hash| >= 20 && ValidDigits(digits)
    ensures 4 <= digits <= 9 ==> Truncate(hash, digits) == Some(TruncateCorrected(hash, digits))
    ensures digits == 0 ==> Truncate(hash, digits) == None
    ensures digits == 10 && DynamicBinary(hash) < INT32_MAX ==> Truncate(hash, digits) == Some(TruncateCorrected(hash, digits))
  {
    var b := DynamicBinary(hash);
    if 4 <= digits <= 9 {
      PadDecimalMod(b, digits);
    } else if digits == 10 && b < INT32_MAX {
      SmallMod(b, INT32_MAX);
      assert b % Modulus(10) == b;
    }
  }

  /** A SHA-1 sized digest whose code is 0x7FFFFFFF: offset 0, bytes 7F FF FF FF. */
  function MaxCodeHash(): (h: seq<Byte>)
    ensures |h| == 20
  {
    [0x7F, 0xFF, 0xFF, 0xFF] + seq(16, _ => 0)
  }

  /** With ten digits the library reduces modulo `INT32_MAX` instead of `10^10`,
      so the largest code prints as ten zeros instead of 2147483647. */
  lemma DigitsTenWraps()
    ensures DynamicBinary(MaxCodeHash()) == INT32_MAX
    ensures Truncate(MaxCodeHash(), 10) == Some("0000000000")
    ensures TruncateCorrected(MaxCodeHash(), 10) == "2147483647"
  {
    var h := MaxCodeHash();
    assert DynamicOffset(h) == 0;
    assert h[0] % 128 == 0x7F && h[1] == 0xFF && h[2] == 0xFF && h[3] == 0xFF;
    assert DynamicBinary(h) == INT32_MAX;
    assert DynamicBinary(h) % Modulus(10) == 0;
    TenZeros();
    MaxCodeDigits();
  }

  lemma TenZeros()
    ensures PadDecimal(0, 10) == "0000000000"
  {
    PadDecimalZero(10);
    assert ZeroDigits(10) == "0000000000";
  }

  lemma MaxCodeDigits()
    ensures PadDecimal(INT32_MAX, 10) == "2147483647"
  {
    assert PadDecimal(2, 1) == "2";
    assert PadDecimal(21, 2) == "21";
    assert PadDecimal(214, 3) == "214";
    assert PadDecimal(2147, 4) == "2147";
    assert PadDecimal(21474, 5) == "21474";
    assert PadDecimal(214748, 6) == "214748";
    assert PadDecimal(2147483, 7) == "2147483";
    assert PadDecimal(21474836, 8) == "21474836";
    assert PadDecimal(214748364, 9) == "214748364";
  }
}
