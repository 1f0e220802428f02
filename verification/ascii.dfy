/** Character-level helpers of the C library the implementation leans on:
    `toupper`, `atoi`, decimal digits and the NUL-terminated view of a string. */
module Ascii {

  /** `toupper` in the C locale: only 'a'..'z' change. */
  function Upper(c: char): char
  {
    if 'a' <= c <= 'z' then (c as int - 32) as char else c
  }

  /** The suite string after the in-place `toupper` loop (ocra.cpp:390-391). */
  function UpperString(s: string): (u: string)
    ensures |u| == |s|
    ensures forall i :: 0 <= i < |s| ==> u[i] == Upper(s[i])
    ensures IsUpperCase(u)
    ensures forall i :: 0 <= i < |s| ==> u[i] == s[i] || ('a' <= s[i] <= 'z' && u[i] as int == s[i] as int - 32)
  {
    seq(|s|, i requires 0 <= i < |s| => Upper(s[i]))
  }

  predicate IsUpperCase(s: string)
  {
    forall i :: 0 <= i < |s| ==> !('a' <= s[i] <= 'z')
  }

  /** Case folding is idempotent and leaves upper-case text unchanged. */
  lemma UpperStringFixpoint(s: string)
    ensures IsUpperCase(s) <==> UpperString(s) == s
    ensures UpperString(UpperString(s)) == UpperString(s)
  {
    if !IsUpperCase(s) {
      var i :| 0 <= i < |s| && 'a' <= s[i] <= 'z';
      assert UpperString(s)[i] != s[i];
    }
  }

  /** The byte a C++ `char` holds; characters beyond one byte cannot occur there. */
  function ByteOf(c: char): int
  {
    (c as int) % 256
  }

  /** Reading a `c_str()` at index `i`: past the end there is the terminating NUL. */
  function CharAt(s: string, i: nat): char
  {
    if i < |s| then s[i] else '\0'
  }

  predicate IsDigit(c: char)
  {
    '0' <= c <= '9'
  }

  predicate AllDigits(s: string)
  {
    forall i :: 0 <= i < |s| ==> IsDigit(s[i])
  }

  /** The character '0' + d. */
  function DigitChar(d: nat): char
    requires d < 1000
  {
    ('0' as int + d) as char
  }

  /** Value of a run of decimal digits, most significant first. */
  function DecValue(s: string): nat
    requires AllDigits(s)
  {
    if |s| == 0 then 0 else DecValue(s[..|s| - 1]) * 10 + (s[|s| - 1] as int - '0' as int)
  }

  function Pow10(k: nat): (p: nat)
    ensures p >= 1
  {
    if k == 0 then 1 else 10 * Pow10(k - 1)
  }

  /** A decimal text never exceeds the value of as many nines. */
  lemma {:induction false} DecValueBound(s: string)
    requires AllDigits(s)
    ensures DecValue(s) < Pow10(|s|)
  {
    if |s| > 0 {
      DecValueBound(s[..|s| - 1]);
    }
  }

  /** `isspace` in the C locale. */
  predicate IsSpace(c: char)
  {
    c == ' ' || c == '\t' || c == '\n' || c == '\r' || c as int == 11 || c as int == 12
  }

  /** The longest prefix made of decimal digits. */
  function LeadingDigits(s: string): (d: string)
    ensures AllDigits(d) && d <= s
    ensures |d| == |s| || !IsDigit(s[|d|])
  {
    if |s| > 0 && IsDigit(s[0]) then [s[0]] + LeadingDigits(s[1..]) else []
  }

  /** C `atoi`: leading white space, an optional sign, then the longest run of
      digits; anything else ends the number. Its magnitude stays below
      `10^|s|`, so on the bodies of at most three characters it reads here the
      C overflow case cannot arise. */
  function AtoI(s: string): (r: int)
    ensures -(Pow10(|s|) as int) < r < Pow10(|s|)
  {
    if |s| > 0 && IsSpace(s[0]) then AtoI(s[1..])
    else if |s| > 0 && (s[0] == '-' || s[0] == '+') then
      var d := LeadingDigits(s[1..]);
      DecValueBound(d);
      Pow10Monotone(|d|, |s|);
      if s[0] == '-' then -(DecValue(d) as int) else DecValue(d)
    else
      var d := LeadingDigits(s);
      DecValueBound(d);
      Pow10Monotone(|d|, |s|);
      DecValue(d)
  }

  lemma {:induction false} Pow10Monotone(a: nat, b: nat)
    requires a <= b
    ensures Pow10(a) <= Pow10(b)
    decreases b
  {
    if a < b {
      Pow10Monotone(a, b - 1);
    }
  }

  /** On a string of digits `atoi` is the decimal value. */
  lemma {:induction false} AtoIOfDigits(s: string)
    requires |s| > 0 && AllDigits(s)
    ensures AtoI(s) == DecValue(s)
  {
    LeadingDigitsOfDigits(s);
  }

  lemma {:induction false} LeadingDigitsOfDigits(s: string)
    requires AllDigits(s)
    ensures LeadingDigits(s) == s
  {
    if |s| > 0 {
      LeadingDigitsOfDigits(s[1..]);
    }
  }

  /** The digit run stops exactly where the digits do. */
  lemma {:induction false} LeadingDigitsOf(d: string, rest: string)
    requires AllDigits(d)
    requires |rest| == 0 || !IsDigit(rest[0])
    ensures LeadingDigits(d + rest) == d
  {
    if |d| > 0 {
      assert (d + rest)[1..] == d[1..] + rest;
      LeadingDigitsOf(d[1..], rest);
    } else {
      assert d + rest == rest;
    }
  }

  /** `atoi` with a sign: white space is skipped, the sign applies to the
      digit run, and whatever follows the run is ignored. */
  lemma {:induction false} AtoISigned(ws: string, neg: bool, d: string, rest: string)
    requires forall i :: 0 <= i < |ws| ==> IsSpace(ws[i])
    requires AllDigits(d)
    requires |rest| == 0 || !IsDigit(rest[0])
    ensures AtoI(ws + [if neg then '-' else '+'] + d + rest)
         == (if neg then -(DecValue(d) as int) else DecValue(d))
  {
    var s := ws + [if neg then '-' else '+'] + d + rest;
    if |ws| > 0 {
      assert s[1..] == ws[1..] + [if neg then '-' else '+'] + d + rest;
      AtoISigned(ws[1..], neg, d, rest);
    } else {
      assert s[1..] == d + rest;
      LeadingDigitsOf(d, rest);
    }
  }

  /** `atoi` without a sign: white space is skipped and the value is that of
      the digit run, whatever follows it. */
  lemma {:induction false} AtoIUnsigned(ws: string, d: string, rest: string)
    requires forall i :: 0 <= i < |ws| ==> IsSpace(ws[i])
    requires |d| > 0 && AllDigits(d)
    requires |rest| == 0 || !IsDigit(rest[0])
    ensures AtoI(ws + d + rest) == DecValue(d)
  {
    var s := ws + d + rest;
    if |ws| > 0 {
      assert s[1..] == ws[1..] + d + rest;
      AtoIUnsigned(ws[1..], d, rest);
    } else {
      assert s == d + rest;
      assert IsDigit(s[0]);
      LeadingDigitsOf(d, rest);
    }
  }

  /** When white space is followed by neither a sign nor a digit, `atoi` reads 0. */
  lemma {:induction false} AtoINoNumber(ws: string, rest: string)
    requires forall i :: 0 <= i < |ws| ==> IsSpace(ws[i])
    requires |rest| == 0 || !(IsSpace(rest[0]) || rest[0] == '-' || rest[0] == '+' || IsDigit(rest[0]))
    ensures AtoI(ws + rest) == 0
  {
    var s := ws + rest;
    if |ws| > 0 {
      assert s[1..] == ws[1..] + rest;
      AtoINoNumber(ws[1..], rest);
    } else {
      assert s == rest;
    }
  }

  /** Without a minus sign `atoi` is never negative. */
  lemma {:induction false} AtoINonNegative(s: string)
    requires '-' !in s
    ensures AtoI(s) >= 0
  {
    if |s| > 0 && IsSpace(s[0]) {
      assert forall c :: c in s[1..] ==> c in s;
      AtoINonNegative(s[1..]);
    } else if |s| > 0 {
      assert s[0] in s;
    }
  }

  /** Reading back one, two or three rendered decimal digits. */
  lemma AtoIOneDigit(a: nat)
    requires a < 10
    ensures AtoI([DigitChar(a)]) == a
  {
    var s := [DigitChar(a)];
    AtoIOfDigits(s);
    assert s[..0] == [];
  }

  lemma AtoITwoDigits(a: nat, b: nat)
    requires a < 10 && b < 10
    ensures AtoI([DigitChar(a), DigitChar(b)]) == 10 * a + b
  {
    var s := [DigitChar(a), DigitChar(b)];
    AtoIOfDigits(s);
    assert s[..1] == [DigitChar(a)];
    assert DecValue([DigitChar(a)]) == a by {
      assert [DigitChar(a)][..0] == [];
    }
    assert DecValue(s) == DecValue(s[..1]) * 10 + b;
  }

  lemma AtoIThreeDigits(a: nat, b: nat, c: nat)
    requires a < 10 && b < 10 && c < 10
    ensures AtoI([DigitChar(a), DigitChar(b), DigitChar(c)]) == 100 * a + 10 * b + c
  {
    var s := [DigitChar(a), DigitChar(b), DigitChar(c)];
    var p := [DigitChar(a), DigitChar(b)];
    AtoIOfDigits(s);
    AtoITwoDigits(a, b);
    AtoIOfDigits(p);
    assert s[..2] == p;
    assert DecValue(s) == DecValue(p) * 10 + c;
  }

  /** Storing an `int` into a `uint8_t` keeps it modulo 2^8 (two's complement). */
  function ToU8(x: int): (r: int)
    ensures 0 <= r < 256
    ensures 0 <= x < 256 ==> r == x
    ensures (x - r) % 256 == 0
  {
    x % 256
  }

  /** Storing an `int` into a `uint16_t` keeps it modulo 2^16. */
  function ToU16(x: int): (r: int)
    ensures 0 <= r < 65536
    ensures 0 <= x < 65536 ==> r == x
    ensures (x - r) % 65536 == 0
  {
    x % 65536
  }
}
