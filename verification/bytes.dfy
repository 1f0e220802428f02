/** Byte-level arithmetic: the `uint8_t` buffer cells, bitwise OR on them and
    the big-endian images of the 64-bit counter and timestamp. */
module Bytes {

  type Byte = b: int | 0 <= b < 256

  const U64_LIMIT: int := 0x1_0000_0000_0000_0000

  type U64 = x: int | 0 <= x < U64_LIMIT

  function Pow2(k: nat): (p: nat)
    ensures p >= 1
  {
    if k == 0 then 1 else 2 * Pow2(k - 1)
  }

  function Pow256(k: nat): (p: nat)
    ensures p >= 1
  {
    if k == 0 then 1 else 256 * Pow256(k - 1)
  }

  /** Bitwise OR of two non-negative integers, bit by bit from the lowest. */
  function BitOr(a: nat, b: nat): nat
    decreases a + b
  {
    if a == 0 then b
    else if b == 0 then a
    else 2 * BitOr(a / 2, b / 2) + (if a % 2 == 1 || b % 2 == 1 then 1 else 0)
  }

  /** OR-ing a value into bits that are still zero is addition: this is why
      `output[pos] |= nibble` after `output[pos] <<= 4` packs two nibbles. */
  lemma {:induction false} BitOrDisjoint(x: nat, y: nat, k: nat)
    requires y < Pow2(k)
    ensures BitOr(x * Pow2(k), y) == x * Pow2(k) + y
  {
    if k == 0 {
      assert y == 0;
    } else if x == 0 || y == 0 {
    } else {
      var h := x * Pow2(k);
      assert h == 2 * (x * Pow2(k - 1));
      assert h / 2 == x * Pow2(k - 1) && h % 2 == 0;
      BitOrDisjoint(x, y / 2, k - 1);
      assert BitOr(h, y) == 2 * BitOr(h / 2, y / 2) + y % 2;
    }
  }

  /** The nibble case used by the hex decoder: `(hi << 4) | lo`. */
  lemma NibbleOr(hi: nat, lo: nat)
    requires lo < 16
    ensures BitOr(hi * 16, lo) == hi * 16 + lo
  {
    assert Pow2(4) == 16;
    BitOrDisjoint(hi, lo, 4);
  }

  /** Quotient and remainder are the only ones with `0 <= r < d`. */
  lemma DivUnique(v: int, d: int, q: int, r: int)
    requires d > 0 && 0 <= r < d && v == q * d + r
    ensures v / d == q && v % d == r
  {
    var q0, r0 := v / d, v % d;
    assert (q - q0) * d == r0 - r;
    MulSign(q - q0, d);
  }

  lemma MulSign(k: int, d: int)
    requires d > 0
    ensures k >= 1 ==> k * d >= d
    ensures k <= -1 ==> k * d <= -d
  {
  }

  /** A quotient stays below the bound the dividend's multiple lies under. */
  lemma DivBelow(v: nat, d: nat, m: nat)
    requires d > 0 && v < m * d
    ensures v / d < m
  {
    var q, r := v / d, v % d;
    assert v == q * d + r;
    MulSign(q - m, d);
  }

  /** Dividing twice is dividing by the product. */
  lemma DivDiv(v: nat, a: nat, b: nat)
    requires a > 0 && b > 0
    ensures v / a / b == v / (a * b)
  {
    var q, r := v / (a * b), v % (a * b);
    var ra, rm := r / a, r % a;
    assert r == ra * a + rm;
    assert ra < b;
    assert v == (q * b + ra) * a + rm by {
      assert v == q * (a * b) + r;
      assert q * (a * b) == (q * b) * a;
    }
    DivUnique(v, a, q * b + ra, rm);
    DivUnique(q * b + ra, b, q, ra);
  }

  /** The `n`-byte big-endian image of `v`, most significant byte first. */
  function BigEndian(v: nat, n: nat): (r: seq<Byte>)
    ensures |r| == n
  {
    if n == 0 then [] else BigEndian(v / 256, n - 1) + [v % 256]
  }

  /** Byte `k` of the image is `(v >> 8*(n-1-k)) & 0xFF`. */
  lemma {:induction false} BigEndianByte(v: nat, n: nat, k: nat)
    requires k < n
    ensures BigEndian(v, n)[k] == (v / Pow256(n - 1 - k)) % 256
  {
    if k < n - 1 {
      BigEndianByte(v / 256, n - 1, k);
      DivDiv(v, 256, Pow256(n - 2 - k));
    }
  }

  /** The number a big-endian byte string denotes. */
  function BigEndianValue(bs: seq<Byte>): nat
  {
    if |bs| == 0 then 0 else BigEndianValue(bs[..|bs| - 1]) * 256 + bs[|bs| - 1]
  }

  /** Reading back an `n`-byte big-endian image gives the value it was made from. */
  lemma {:induction false} BigEndianRoundTrip(v: nat, n: nat)
    requires v < Pow256(n)
    ensures BigEndianValue(BigEndian(v, n)) == v
  {
    if n > 0 {
      var q := v / 256;
      DivBelow(v, 256, Pow256(n - 1));
      BigEndianRoundTrip(q, n - 1);
      BigEndianSnoc(BigEndian(q, n - 1), v % 256);
      DivMod256(v);
    }
  }

  lemma BigEndianSnoc(bs: seq<Byte>, b: Byte)
    ensures BigEndianValue(bs + [b]) == BigEndianValue(bs) * 256 + b
  {
    assert (bs + [b])[..|bs|] == bs;
  }

  lemma DivMod256(v: nat)
    ensures v / 256 * 256 + v % 256 == v
  {
  }

  /** The 8-byte image the library writes for a counter or a timestamp
      (ocra.cpp:237-244 and 345-352). */
  function Word64(v: U64): (r: seq<Byte>)
    ensures |r| == 8
    ensures BigEndianValue(r) == v
  {
    assert Pow256(8) == U64_LIMIT;
    BigEndianRoundTrip(v, 8);
    BigEndian(v, 8)
  }

  function Zeros(n: nat): (r: seq<Byte>)
    ensures |r| == n
    ensures forall i :: 0 <= i < n ==> r[i] == 0
  {
    seq(n, _ => 0)
  }
}
