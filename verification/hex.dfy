/** The two hexadecimal helpers of ocra.cpp: `StringHexToUint8`
    (ocra.cpp:366-386), which packs hexadecimal text two nibbles per byte into
    a zero-filled region of the message, and `uint256DecToHex` (ocra.cpp:24-53),
    which turns a decimal question into upper-case hexadecimal text. */
module HexCodec {
  import opened Results
  import opened Errors
  import opened Ascii
  import opened Bytes

  /** Value of a hexadecimal digit after `toupper`, or nothing. */
  function NibbleOf(c: char): (r: Option<nat>)
    ensures r.Some? ==> r.value < 16
    ensures r.Some? <==> IsDigit(c) || 'A' <= c <= 'F' || 'a' <= c <= 'f'
  {
    var u := Upper(c);
    if '0' <= u <= '9' then Some(u as int - '0' as int)
    else if 'A' <= u <= 'F' then Some(10 + u as int - 'A' as int)
    else None
  }

  predicate AllHex(w: string)
  {
    forall i :: 0 <= i < |w| ==> NibbleOf(w[i]).Some?
  }

  /** The upper-case digit for a nibble, as `x + (10 <= x ? 'A' - 10 : '0')`. */
  function HexChar(n: nat): (c: char)
    requires n < 16
    ensures NibbleOf(c) == Some(n)
    ensures c != 'x' && c != '\0' && !('a' <= c <= 'z')
  {
    if n < 10 then ('0' as int + n) as char else ('A' as int + n - 10) as char
  }

  /** `n` characters of a `c_str()` starting at `from`; past the end it reads NUL. */
  function Window(input: string, from: nat, n: nat): (w: string)
    ensures |w| == n
    ensures forall i :: 0 <= i < n ==> w[i] == CharAt(input, from + i)
  {
    seq(n, i requires 0 <= i < n => CharAt(input, from + i))
  }

  /** The characters `StringHexToUint8` reads: when more than two are asked for
      and the second one is 'x', the first two are skipped and two fewer read. */
  function HexWindow(input: string, length: nat): string
  {
    if length > 2 && CharAt(input, 1) == 'x' then Window(input, 2, length - 2)
    else Window(input, 0, length)
  }

  /** Hexadecimal digits at the front of a text are read as they stand: a
      digit is never the 'x' of a prefix. */
  lemma HexWindowOfDigits(input: string, n: nat)
    requires n <= |input| && AllHex(input[..n])
    ensures HexWindow(input, n) == input[..n]
  {
    if n > 2 {
      assert CharAt(input, 1) == input[..n][1];
      assert NibbleOf(input[..n][1]).Some?;
    }
    assert Window(input, 0, n) == input[..n];
  }

  function Nibbles(w: string): (r: seq<nat>)
    requires AllHex(w)
    ensures |r| == |w|
    ensures forall i :: 0 <= i < |w| ==> r[i] < 16 && NibbleOf(w[i]) == Some(r[i])
  {
    seq(|w|, i requires 0 <= i < |w| => NibbleOf(w[i]).value)
  }

  predicate NibbleSeq(nibs: seq<nat>)
  {
    forall i :: 0 <= i < |nibs| ==> nibs[i] < 16
  }

  /** Byte `k` of a packed nibble sequence: nibble `2k` in the high half, nibble
      `2k+1` (or nothing, for an odd last nibble) in the low half. */
  function PackedByte(nibs: seq<nat>, k: nat): Byte
    requires NibbleSeq(nibs) && 2 * k < |nibs|
  {
    nibs[2 * k] * 16 + (if 2 * k + 1 < |nibs| then nibs[2 * k + 1] else 0)
  }

  function Pack(nibs: seq<nat>): (bs: seq<Byte>)
    requires NibbleSeq(nibs)
    ensures |bs| == (|nibs| + 1) / 2
  {
    seq((|nibs| + 1) / 2, k requires 0 <= k < (|nibs| + 1) / 2 => PackedByte(nibs, k))
  }

  /** A region of `size` zero bytes with `bs` written from `start` on; bytes
      that would land past the region are dropped. */
  function Place(size: nat, start: nat, bs: seq<Byte>): (r: seq<Byte>)
    ensures |r| == size
  {
    seq(size, k requires 0 <= k < size => if start <= k < start + |bs| then bs[k - start] else 0)
  }

  /** Where the first byte goes: one further when an odd count is aligned right. */
  function StartOf(base: nat, count: nat, alignRight: bool): nat
  {
    base + (if count % 2 == 1 && alignRight then 1 else 0)
  }

  /** `StringHexToUint8(output + base, input, length, isAlignRight)` into a
      zero-filled region of `size` bytes. */
  function HexDecode(size: nat, base: nat, input: string, length: nat, alignRight: bool): (r: Result<seq<Byte>, ErrorCode>)
    ensures r.Success? ==> |r.value| == size
    ensures r.Failure? ==> r.error == InvalidHexDigit
  {
    var w := HexWindow(input, length);
    if !AllHex(w) then Failure(InvalidHexDigit)
    else Success(Place(size, StartOf(base, |w|, alignRight), Pack(Nibbles(w))))
  }

  /** What the decoded region means: decoding fails exactly when a character
      read is not a hexadecimal digit; otherwise the bytes written, read as one
      big-endian number, are the value of the digits read. An odd count leaves
      the last low nibble empty, so that number is then shifted by one digit:
      aligning right only moves the first byte, it does not move the digits to
      the low end. Every other byte of the region stays zero. */
  lemma HexDecodeValue(size: nat, base: nat, input: string, length: nat, alignRight: bool)
    ensures var w := HexWindow(input, length); var r := HexDecode(size, base, input, length, alignRight);
      var start := StartOf(base, |w|, alignRight); var n := (|w| + 1) / 2;
      && (r.Success? <==> AllHex(w))
      && (r.Success? && start + n <= size ==>
            && BigEndianValue(r.value[start..start + n]) == HexValue(w) * (if |w| % 2 == 1 then 16 else 1)
            && forall k :: 0 <= k < size && !(start <= k < start + n) ==> r.value[k] == 0)
  {
    var w := HexWindow(input, length);
    if AllHex(w) {
      var start := StartOf(base, |w|, alignRight);
      var bs := Pack(Nibbles(w));
      var r := HexDecode(size, base, input, length, alignRight);
      assert r.value == Place(size, start, bs);
      assert |bs| == (|w| + 1) / 2;
      if start + |bs| <= size {
        PlaceSlice(size, start, bs);
        PackValue(w);
      }
    }
  }

  /** The placed bytes are found at their position, and zeros elsewhere. */
  lemma PlaceSlice(size: nat, start: nat, bs: seq<Byte>)
    requires start + |bs| <= size
    ensures var r := Place(size, start, bs);
      && r[start..start + |bs|] == bs
      && forall k :: 0 <= k < size && !(start <= k < start + |bs|) ==> r[k] == 0
  {
  }

  /** The packed bytes of hexadecimal digits, read big-endian, are the digits'
      value, times sixteen when the count is odd. */
  lemma PackValue(w: string)
    requires AllHex(w)
    ensures BigEndianValue(Pack(Nibbles(w))) == HexValue(w) * (if |w| % 2 == 1 then 16 else 1)
  {
    PackNibbleValue(Nibbles(w));
    NibblesValue(w);
  }

  /** The value of a sequence of nibbles, most significant first. */
  function NibbleValue(nibs: seq<nat>): nat
  {
    if |nibs| == 0 then 0 else NibbleValue(nibs[..|nibs| - 1]) * 16 + nibs[|nibs| - 1]
  }

  lemma {:induction false} PackNibbleValue(nibs: seq<nat>)
    requires NibbleSeq(nibs)
    ensures BigEndianValue(Pack(nibs)) == NibbleValue(nibs) * (if |nibs| % 2 == 1 then 16 else 1)
  {
    if |nibs| > 0 {
      var init, x := nibs[..|nibs| - 1], nibs[|nibs| - 1];
      PackNibbleValue(init);
      PackLastValue(nibs);
      ShiftNibble(NibbleValue(init), BigEndianValue(Pack(init)), x, |init| % 2 == 0);
    }
  }

  /** `PackValueStep` for the last nibble of a non-empty sequence. */
  lemma PackLastValue(nibs: seq<nat>)
    requires NibbleSeq(nibs) && |nibs| > 0
    ensures var init, x := nibs[..|nibs| - 1], nibs[|nibs| - 1];
      && NibbleValue(nibs) == NibbleValue(init) * 16 + x
      && BigEndianValue(Pack(nibs)) ==
           if |init| % 2 == 0 then BigEndianValue(Pack(init)) * 256 + x * 16 else BigEndianValue(Pack(init)) + x
  {
    var init, x := nibs[..|nibs| - 1], nibs[|nibs| - 1];
    assert nibs == init + [x];
    PackValueStep(init, x);
  }

  lemma ShiftNibble(hv: nat, pv: nat, x: nat, even: bool)
    requires pv == hv * (if even then 1 else 16)
    ensures (if even then pv * 256 + x * 16 else pv + x) == (hv * 16 + x) * (if even then 16 else 1)
  {
  }

  lemma {:induction false} NibblesValue(w: string)
    requires AllHex(w)
    ensures HexValue(w) == NibbleValue(Nibbles(w))
  {
    if |w| > 0 {
      var v := w[..|w| - 1];
      assert AllHex(v);
      NibblesValue(v);
      assert Nibbles(w)[..|w| - 1] == Nibbles(v);
    }
  }

  /** One more nibble: it fills the low half of the last byte, or starts a
      new byte in its high half. */
  lemma PackValueStep(nibs: seq<nat>, x: nat)
    requires NibbleSeq(nibs) && x < 16
    ensures NibbleSeq(nibs + [x])
    ensures BigEndianValue(Pack(nibs + [x])) ==
      if |nibs| % 2 == 0 then BigEndianValue(Pack(nibs)) * 256 + x * 16 else BigEndianValue(Pack(nibs)) + x
  {
    PackSnoc(nibs, x);
    var p := Pack(nibs);
    if |nibs| % 2 == 0 {
      BigEndianSnoc(p, x * 16);
    } else {
      var last := |p| - 1;
      assert p[last] == nibs[2 * last] * 16;
      assert p == p[..last] + [p[last]];
      BigEndianSnoc(p[..last], p[last]);
      BigEndianSnoc(p[..last], p[last] + x);
    }
  }

  /** Two upper-case hexadecimal digits per byte, high nibble first. */
  function HexEncode(bs: seq<Byte>): (s: string)
    ensures |s| == 2 * |bs|
  {
    seq(2 * |bs|, i requires 0 <= i < 2 * |bs| => HexChar(if i % 2 == 0 then bs[i / 2] / 16 else bs[i / 2] % 16))
  }

  /** Decoding the encoding of a byte string into a region of its size gives
      the byte string back. */
  lemma HexRoundTrip(bs: seq<Byte>)
    ensures HexDecode(|bs|, 0, HexEncode(bs), 2 * |bs|, false) == Success(bs)
  {
    var e := HexEncode(bs);
    var w := HexWindow(e, 2 * |bs|);
    assert w == e;
    assert AllHex(w);
    var nibs := Nibbles(w);
    forall k | 0 <= k < |bs|
      ensures PackedByte(nibs, k) == bs[k]
    {
      RoundTripAt(bs, k);
    }
    assert Pack(nibs) == bs;
    assert Place(|bs|, 0, bs) == bs;
  }

  /** Encoding the decoding of hexadecimal text with an even number of digits
      gives the text back, upper-cased. */
  lemma HexEncodeDecode(w: string)
    requires AllHex(w) && |w| % 2 == 0
    ensures HexEncode(Pack(Nibbles(w))) == UpperString(w)
  {
    var nibs := Nibbles(w);
    var e := HexEncode(Pack(nibs));
    forall i | 0 <= i < |w|
      ensures e[i] == Upper(w[i])
    {
      EncodeDecodeAt(w, i);
    }
  }

  lemma RoundTripAt(bs: seq<Byte>, k: nat)
    requires k < |bs|
    ensures var nibs := Nibbles(HexEncode(bs)); PackedByte(nibs, k) == bs[k]
  {
    var e := HexEncode(bs);
    var nibs := Nibbles(e);
    assert e[2 * k] == HexChar(bs[k] / 16);
    assert e[2 * k + 1] == HexChar(bs[k] % 16);
    ByteSplit(bs[k]);
  }

  lemma EncodeDecodeAt(w: string, i: nat)
    requires AllHex(w) && |w| % 2 == 0 && i < |w|
    ensures HexEncode(Pack(Nibbles(w)))[i] == Upper(w[i])
  {
    var nibs := Nibbles(w);
    var bs := Pack(nibs);
    var j := i / 2;
    PackedPair(nibs, j);
    if i % 2 == 0 {
      assert HexEncode(bs)[i] == HexChar(bs[j] / 16);
    } else {
      assert HexEncode(bs)[i] == HexChar(bs[j] % 16);
    }
    UpperHexChar(w[i], nibs[i]);
  }

  /** Byte `j` of an even run of nibbles holds nibbles `2j` and `2j+1`. */
  lemma PackedPair(nibs: seq<nat>, j: nat)
    requires NibbleSeq(nibs) && |nibs| % 2 == 0 && 2 * j < |nibs|
    ensures Pack(nibs)[j] / 16 == nibs[2 * j] && Pack(nibs)[j] % 16 == nibs[2 * j + 1]
  {
    assert Pack(nibs)[j] == nibs[2 * j] * 16 + nibs[2 * j + 1];
    NibblePair(nibs[2 * j], nibs[2 * j + 1]);
  }

  /** A byte is its high nibble times sixteen plus its low nibble. */
  lemma ByteSplit(b: Byte)
    ensures b / 16 < 16 && b % 16 < 16 && b / 16 * 16 + b % 16 == b
  {
  }

  /** Two nibbles packed into a byte come back out by division by sixteen. */
  lemma NibblePair(hi: nat, lo: nat)
    requires hi < 16 && lo < 16
    ensures (hi * 16 + lo) / 16 == hi && (hi * 16 + lo) % 16 == lo
  {
  }

  /** A hexadecimal digit upper-cased is the digit `HexChar` writes for it. */
  lemma UpperHexChar(c: char, n: nat)
    requires NibbleOf(c) == Some(n)
    ensures HexChar(n) == Upper(c)
  {
  }

  /** The prefix rule looks only at the second character, and only for a
      lower-case 'x': "0X1F" is read as four characters and fails on the 'X'. */
  lemma UpperPrefixRejected()
    ensures HexDecode(2, 0, "0X1F", 4, false) == Failure(InvalidHexDigit)
    ensures HexDecode(2, 0, "0x1F", 4, false) == Success([0x1F, 0])
  {
    assert HexWindow("0X1F", 4)[1] == 'X';
    var w := HexWindow("0x1F", 4);
    assert w == "1F";
    assert AllHex(w);
    assert Nibbles(w) == [1, 15];
    assert Pack([1, 15]) == [0x1F];
    assert Place(2, 0, [0x1F]) == [0x1F, 0];
  }

  // ---------------------------------------------------------------------
  // The decoding loop

  lemma PackSnoc(nibs: seq<nat>, x: nat)
    requires NibbleSeq(nibs) && x < 16
    ensures NibbleSeq(nibs + [x])
    ensures var p := Pack(nibs); var q := Pack(nibs + [x]);
      if |nibs| % 2 == 0 then q == p + [x * 16]
      else |p| > 0 && q == p[..|p| - 1] + [p[|p| - 1] + x]
  {
    var n := nibs + [x];
    var p := Pack(nibs);
    var q := Pack(n);
    forall k | 0 <= k < |p| && 2 * k + 1 < |nibs|
      ensures q[k] == p[k]
    {
      assert n[2 * k] == nibs[2 * k] && n[2 * k + 1] == nibs[2 * k + 1];
    }
    if |nibs| % 2 == 0 {
      assert q[|p|] == x * 16;
      assert q == p + [x * 16];
    } else {
      var k := |p| - 1;
      assert 2 * k == |nibs| - 1;
      assert q[k] == nibs[2 * k] * 16 + x;
      assert p[k] == nibs[2 * k] * 16;
      assert q == p[..k] + [p[k] + x];
    }
  }

  /** Writing one more byte after those already placed. */
  lemma PlaceSnoc(size: nat, start: nat, bs: seq<Byte>, b: Byte)
    ensures var j := start + |bs|;
      Place(size, start, bs + [b]) == if j < size then Place(size, start, bs)[j := b] else Place(size, start, bs)
  {
  }

  /** Changing the last byte placed. */
  lemma PlaceLast(size: nat, start: nat, bs: seq<Byte>, b: Byte)
    requires |bs| > 0
    ensures var j := start + |bs| - 1;
      Place(size, start, bs[..|bs| - 1] + [b]) == if j < size then Place(size, start, bs)[j := b] else Place(size, start, bs)
  {
  }

  lemma NibblesSnoc(w: string, i: nat)
    requires i < |w| && AllHex(w[..i + 1])
    ensures AllHex(w[..i])
    ensures Nibbles(w[..i + 1]) == Nibbles(w[..i]) + [NibbleOf(w[i]).value]
  {
    assert w[..i + 1][..i] == w[..i];
  }

  /** One pass of the loop body on the region holding the nibbles read so far:
      `output[pos] |= nibble`, then `output[pos] <<= 4` after an even position. */
  lemma DepositStep(size: nat, start: nat, nibs: seq<nat>, x: nat)
    requires NibbleSeq(nibs) && x < 16
    ensures NibbleSeq(nibs + [x])
    ensures Deposit(Place(size, start, Pack(nibs)), start + |nibs| / 2, |nibs|, x)
         == Place(size, start, Pack(nibs + [x]))
  {
    var p := Pack(nibs);
    var out := Place(size, start, p);
    var pos := start + |nibs| / 2;
    PackSnoc(nibs, x);
    if |nibs| % 2 == 1 {
      var hi := p[|p| - 1];
      assert hi == nibs[|nibs| - 1] * 16;
      if pos < size {
        assert out[pos] == hi;
        NibbleOr(nibs[|nibs| - 1], x);
      }
      PlaceLast(size, start, p, hi + x);
    } else {
      if pos < size {
        assert out[pos] == 0;
        assert BitOr(0, x) == x;
      }
      PlaceSnoc(size, start, p, x * 16);
    }
  }

  /** `StringHexToUint8`: skip a "?x" prefix, pick the first byte, then run
      the packing loop. */
  method StringHexToUint8(size: nat, base: nat, input: string, length: nat, alignRight: bool)
    returns (r: Result<seq<Byte>, ErrorCode>)
    ensures r == HexDecode(size, base, input, length, alignRight)
  {
    var len := length;
    var from := 0;
    if length > 2 && CharAt(input, 1) == 'x' {
      len := length - 2;
      from := 2;
    }
    r := PackLoop(size, StartOf(base, len, alignRight), input, from, len);
  }

  /** The library's loop over `len` characters from `from` on: OR the nibble
      into the current byte, then either move on (odd position) or shift it
      into the high half (even position). */
  method PackLoop(size: nat, start: nat, input: string, from: nat, len: nat)
    returns (r: Result<seq<Byte>, ErrorCode>)
    ensures var w := Window(input, from, len);
      r == if AllHex(w) then Success(Place(size, start, Pack(Nibbles(w)))) else Failure(InvalidHexDigit)
  {
    ghost var w := Window(input, from, len);
    var pos := start;
    var out := Zeros(size);
    assert out == Place(size, start, Pack(Nibbles(w[..0])));
    var i := 0;
    while i < len
      invariant 0 <= i <= len
      invariant pos == start + i / 2
      invariant AllHex(w[..i])
      invariant out == Place(size, start, Pack(Nibbles(w[..i])))
    {
      var nib := Nibble(CharAt(input, from + i));
      if nib.None? {
        assert NibbleOf(w[i]).None?;
        return Failure(InvalidHexDigit);
      }
      assert w[i] == CharAt(input, from + i);
      out, pos := Advance(w, i, size, start, out, pos, nib.value);
      i := i + 1;
    }
    assert w[..i] == w;
    return Success(out);
  }

  /** `toupper(c)`, then the digit and letter ranges. */
  method Nibble(ch: char) returns (r: Option<nat>)
    ensures r == NibbleOf(ch)
  {
    var c := Upper(ch);
    if '0' <= c <= '9' {
      r := Some(c as int - '0' as int);
    } else if 'A' <= c <= 'F' {
      r := Some(10 + c as int - 'A' as int);
    } else {
      r := None;
    }
  }

  /** One pass of the packing loop, with the position moving on after an odd
      character: the region then holds the nibbles read so far. */
  method Advance(ghost w: string, i: nat, size: nat, start: nat, out: seq<Byte>, pos: nat, nib: nat)
    returns (out': seq<Byte>, pos': nat)
    requires i < |w| && AllHex(w[..i]) && NibbleOf(w[i]) == Some(nib)
    requires pos == start + i / 2 && out == Place(size, start, Pack(Nibbles(w[..i])))
    ensures AllHex(w[..i + 1]) && pos' == start + (i + 1) / 2
    ensures out' == Place(size, start, Pack(Nibbles(w[..i + 1])))
  {
    NextStateSpec(w, i, size, start, nib);
    out' := Deposit(out, pos, i, nib);
    pos' := if i % 2 == 1 then pos + 1 else pos;
  }

  /** One pass of the packing loop on the bytes: OR the nibble into the
      current byte, then shift that byte left by four after an even position. */
  function Deposit(out: seq<Byte>, pos: nat, i: nat, nib: nat): (r: seq<Byte>)
    requires nib < 16
    ensures |r| == |out|
  {
    var o1 := if pos < |out| then out[pos := ToU8(BitOr(out[pos], nib))] else out;
    if i % 2 == 1 || pos >= |out| then o1 else o1[pos := ToU8(o1[pos] * 16)]
  }

  /** The region after character `i`, given the character is a hex digit. */
  lemma NextStateSpec(w: string, i: nat, size: nat, start: nat, nib: nat)
    requires i < |w| && AllHex(w[..i]) && NibbleOf(w[i]) == Some(nib)
    ensures AllHex(w[..i + 1])
    ensures nib < 16
    ensures Deposit(Place(size, start, Pack(Nibbles(w[..i]))), start + i / 2, i, nib)
         == Place(size, start, Pack(Nibbles(w[..i + 1])))
  {
    AllHexSnoc(w, i);
    NibblesSnoc(w, i);
    var nibs := Nibbles(w[..i]);
    assert |nibs| == i;
    assert Nibbles(w[..i + 1]) == nibs + [nib];
    DepositStep(size, start, nibs, nib);
  }

  lemma AllHexSnoc(w: string, i: nat)
    requires i < |w| && AllHex(w[..i]) && NibbleOf(w[i]).Some?
    ensures AllHex(w[..i + 1])
  {
    var v := w[..i + 1];
    forall k | 0 <= k < |v|
      ensures NibbleOf(v[k]).Some?
    {
      if k < i {
        assert v[k] == w[..i][k];
      }
    }
  }

  // ---------------------------------------------------------------------
  // uint256DecToHex

  function Pow16(k: nat): (p: nat)
    ensures p >= 1
  {
    if k == 0 then 1 else 16 * Pow16(k - 1)
  }

  /** Value of little-endian base-16 digits (the library's `x` array). */
  function LittleValue(x: seq<int>): nat
    requires HexDigits(x)
  {
    if |x| == 0 then 0 else x[0] + 16 * LittleValue(x[1..])
  }

  predicate HexDigits(x: seq<int>)
  {
    forall i :: 0 <= i < |x| ==> 0 <= x[i] < 16
  }

  /** Upper-case hexadecimal text of `v`, most significant digit first and no
      leading zero; zero has no digits at all, as in the library. */
  function HexText(v: nat): (s: string)
    decreases v
  {
    if v == 0 then [] else HexText(v / 16) + [HexChar(v % 16)]
  }

  /** Value of hexadecimal text, most significant digit first. */
  function HexValue(s: string): nat
    requires AllHex(s)
  {
    if |s| == 0 then 0 else HexValue(s[..|s| - 1]) * 16 + NibbleOf(s[|s| - 1]).value
  }

  /** Reading `HexText` back gives the number, and its first digit is not '0'. */
  lemma {:induction false} HexTextValue(v: nat)
    ensures AllHex(HexText(v)) && HexValue(HexText(v)) == v
    ensures |HexText(v)| > 0 ==> HexText(v)[0] != '0'
    decreases v
  {
    if v > 0 {
      var s := HexText(v);
      HexTextValue(v / 16);
      assert s[..|s| - 1] == HexText(v / 16);
      if v / 16 == 0 {
        assert s == [HexChar(v % 16)];
      } else {
        assert s[0] == HexText(v / 16)[0];
      }
    }
  }

  /** The digits of `x`, most significant first: what the output loop writes. */
  function Reversed(x: seq<int>): (s: string)
    requires HexDigits(x)
    ensures |s| == |x|
  {
    seq(|x|, i requires 0 <= i < |x| => HexChar(x[|x| - 1 - i]))
  }

  /** Digits with a non-zero top digit print as the text of their value. */
  lemma {:induction false} ReversedText(x: seq<int>)
    requires HexDigits(x) && (|x| > 0 ==> x[|x| - 1] != 0)
    ensures Reversed(x) == HexText(LittleValue(x))
  {
    if |x| > 0 {
      var t := x[1..];
      ReversedText(t);
      LittleValuePositive(x);
      var v := LittleValue(x);
      DivUnique(v, 16, LittleValue(t), x[0]);
      assert Reversed(x) == Reversed(t) + [HexChar(x[0])];
    }
  }

  lemma {:induction false} LittleValuePositive(x: seq<int>)
    requires HexDigits(x) && |x| > 0 && x[|x| - 1] != 0
    ensures LittleValue(x) > 0
  {
    if |x| > 1 {
      LittleValuePositive(x[1..]);
    }
  }

  /** A digit appended at the top adds its weight. */
  lemma {:induction false} LittleValueSnoc(x: seq<int>, d: int)
    requires HexDigits(x) && 0 <= d < 16
    ensures HexDigits(x + [d])
    ensures LittleValue(x + [d]) == LittleValue(x) + d * Pow16(|x|)
  {
    if |x| > 0 {
      var t := x[1..];
      assert (x + [d])[1..] == t + [d];
      LittleValueSnoc(t, d);
      assert LittleValue(x + [d]) == x[0] + 16 * LittleValue(t + [d]);
      ShiftWeight(x[0], LittleValue(t), d, Pow16(|t|));
    } else {
      assert LittleValue([d]) == d + 16 * LittleValue([]);
    }
  }

  lemma ShiftWeight(a: int, b: int, d: int, p: int)
    ensures a + 16 * (b + d * p) == (a + 16 * b) + d * (16 * p)
  {
  }

  lemma {:induction false} LittleValueBelow(x: seq<int>)
    requires HexDigits(x)
    ensures 0 <= LittleValue(x) < Pow16(|x|)
  {
    if |x| > 0 {
      LittleValueBelow(x[1..]);
    }
  }

  /** A value of at least `16^(n-1)` in `n` digits has a non-zero top digit. */
  lemma TopDigit(x: seq<int>)
    requires HexDigits(x) && |x| > 0 && LittleValue(x) >= Pow16(|x| - 1)
    ensures x[|x| - 1] != 0
  {
    var n := |x|;
    assert x == x[..n - 1] + [x[n - 1]];
    LittleValueSnoc(x[..n - 1], x[n - 1]);
    LittleValueBelow(x[..n - 1]);
  }

  /** A non-zero top digit makes the value at least `16^(n-1)`. */
  lemma TopDigitWeight(x: seq<int>)
    requires HexDigits(x) && |x| > 0 && x[|x| - 1] != 0
    ensures LittleValue(x) >= Pow16(|x| - 1)
  {
    var n := |x|;
    assert x == x[..n - 1] + [x[n - 1]];
    LittleValueSnoc(x[..n - 1], x[n - 1]);
  }

  lemma {:induction false} DecValuePrefix(s: string, j: nat)
    requires AllDigits(s) && j <= |s|
    ensures AllDigits(s[..j]) && DecValue(s[..j]) <= DecValue(s)
    decreases |s| - j
  {
    if j < |s| {
      DecValuePrefix(s, j + 1);
      assert s[..j + 1][..j] == s[..j];
    } else {
      assert s[..j] == s;
    }
  }

  /** The text `uint256DecToHex` returns: a `std::string` resized to 65
      characters, holding the digits and NUL padding. */
  function PaddedHex(v: nat): (s: string)
    requires |HexText(v)| <= 64
    ensures |s| == 65
  {
    HexText(v) + seq(65 - |HexText(v)|, _ => '\0')
  }

  /** One decimal digit folded into the little-endian base-16 digits:
      `d = div(x[i]*10 + d.quot, 16); x[i] = d.rem;` for every digit. */
  method MulAdd(x: seq<int>, l: nat, digit: nat) returns (y: seq<int>, carry: int)
    requires l <= |x| && HexDigits(x[..l]) && digit < 10
    ensures |y| == |x| && HexDigits(y[..l]) && y[l..] == x[l..]
    ensures 0 <= carry <= 9
    ensures LittleValue(y[..l]) + carry * Pow16(l) == 10 * LittleValue(x[..l]) + digit
  {
    y := x;
    carry := digit;
    var i := 0;
    while i < l
      invariant 0 <= i <= l && |y| == |x|
      invariant HexDigits(y[..i]) && y[i..] == x[i..]
      invariant 0 <= carry <= 9
      invariant LittleValue(y[..i]) + carry * Pow16(i) == 10 * LittleValue(x[..i]) + digit
    {
      var t := y[i] * 10 + carry;
      MulAddStep(x, y, l, i, carry, digit);
      y := y[i := t % 16];
      carry := t / 16;
      i := i + 1;
    }
    assert y[..l] == y[..i];
  }

  /** One pass of the carry loop: digit `i` becomes `(x[i]*10 + carry) % 16`
      and the quotient carries into the next digit. */
  lemma MulAddStep(x: seq<int>, y: seq<int>, l: nat, i: nat, carry: int, digit: nat)
    requires i < l <= |x| && |y| == |x| && HexDigits(x[..l]) && digit < 10
    requires HexDigits(y[..i]) && y[i..] == x[i..] && 0 <= carry <= 9
    requires LittleValue(y[..i]) + carry * Pow16(i) == 10 * LittleValue(x[..i]) + digit
    ensures var t := y[i] * 10 + carry;
      var y' := y[i := t % 16];
      && HexDigits(y'[..i + 1]) && y'[i + 1..] == x[i + 1..] && 0 <= t / 16 <= 9
      && LittleValue(y'[..i + 1]) + (t / 16) * Pow16(i + 1) == 10 * LittleValue(x[..i + 1]) + digit
  {
    assert x[..l][i] == x[i];
    assert y[i] == x[i];
    var t := y[i] * 10 + carry;
    var r := t % 16;
    var before := y[..i];
    var y' := y[i := r];
    assert y'[..i + 1] == before + [r];
    assert x[..i + 1] == x[..i] + [x[i]];
    LittleValueSnoc(before, r);
    LittleValueSnoc(x[..i], x[i]);
    CarryStep(LittleValue(before), LittleValue(x[..i]), x[i], carry, digit, Pow16(i));
  }

  /** One step of the carry loop keeps the value it stands for. */
  lemma CarryStep(a: int, b: int, xi: int, c: int, digit: int, p: int)
    requires a + c * p == 10 * b + digit
    ensures var t := xi * 10 + c;
      a + (t % 16) * p + (t / 16) * (16 * p) == 10 * (b + xi * p) + digit
  {
    var t := xi * 10 + c;
    var q, r := t / 16, t % 16;
    assert t == 16 * q + r;
    calc {
      a + r * p + q * (16 * p);
      a + (r + 16 * q) * p;
      a + t * p;
      a + c * p + 10 * (xi * p);
    }
  }

  /** The library's 64-slot array `x` whose first `l` entries are base-16
      digits, least significant first, with no leading zero. */
  predicate Digits64(x: seq<int>, l: nat)
  {
    |x| == 64 && l <= 64 && HexDigits(x[..l]) && (l > 0 ==> x[l - 1] != 0)
  }

  /** One decimal digit appended to the number the little-endian digits
      stand for, growing them by one digit when the carry is left over. */
  method FoldDigit(x: seq<int>, l: nat, digit: nat) returns (y: seq<int>, m: nat)
    requires Digits64(x, l) && digit < 10
    requires 10 * LittleValue(x[..l]) + digit < Pow16(64)
    ensures Digits64(y, m)
    ensures LittleValue(y[..m]) == 10 * LittleValue(x[..l]) + digit
  {
    var low, carry := MulAdd(x, l, digit);
    y, m := Settle(x, l, digit, low, carry);
  }

  /** After the carry loop: a left-over carry becomes a new top digit,
      otherwise the length stays and so does a non-zero top digit. */
  method Settle(x: seq<int>, l: nat, digit: nat, low: seq<int>, carry: int) returns (y: seq<int>, m: nat)
    requires Digits64(x, l) && digit < 10
    requires 10 * LittleValue(x[..l]) + digit < Pow16(64)
    requires |low| == 64 && HexDigits(low[..l]) && 0 <= carry <= 9
    requires LittleValue(low[..l]) + carry * Pow16(l) == 10 * LittleValue(x[..l]) + digit
    ensures Digits64(y, m)
    ensures LittleValue(y[..m]) == 10 * LittleValue(x[..l]) + digit
  {
    if carry != 0 {
      CarryNeedsRoom(LittleValue(low[..l]), carry, l, 10 * LittleValue(x[..l]) + digit);
      y, m := PushCarry(low, l, carry);
    } else {
      NoCarry(x, l, digit, low, carry);
      y, m := low, l;
    }
  }

  /** Without a carry the digits keep their length and a non-zero top digit. */
  lemma NoCarry(x: seq<int>, l: nat, digit: nat, low: seq<int>, carry: int)
    requires l <= |x| && l <= |low| && HexDigits(x[..l]) && (l > 0 ==> x[l - 1] != 0) && digit < 10
    requires HexDigits(low[..l]) && carry == 0
    requires LittleValue(low[..l]) + carry * Pow16(l) == 10 * LittleValue(x[..l]) + digit
    ensures LittleValue(low[..l]) == 10 * LittleValue(x[..l]) + digit
    ensures l > 0 ==> low[l - 1] != 0
  {
    if l > 0 {
      KeepsTop(x[..l], low[..l], digit);
    }
  }

  /** A carry out of `l` digits means the value needs more than `l` digits. */
  lemma CarryNeedsRoom(low: nat, carry: int, l: nat, v: nat)
    requires 0 < carry && low + carry * Pow16(l) == v && v < Pow16(64) && l <= 64
    ensures l < 64
  {
    MulSign(carry, Pow16(l));
  }

  /** A carry becomes a new top digit. */
  method PushCarry(y: seq<int>, l: nat, carry: int) returns (z: seq<int>, m: nat)
    requires |y| == 64 && l < 64 && HexDigits(y[..l]) && 0 < carry <= 9
    ensures |z| == 64 && m == l + 1 && HexDigits(z[..m]) && z[m - 1] != 0
    ensures LittleValue(z[..m]) == LittleValue(y[..l]) + carry * Pow16(l)
  {
    var top := y[..l];
    z := y[l := carry];
    assert z[..l + 1] == top + [carry];
    LittleValueSnoc(top, carry);
    m := l + 1;
  }

  /** Without a carry the top digit stays non-zero. */
  lemma KeepsTop(xs: seq<int>, ys: seq<int>, digit: nat)
    requires HexDigits(xs) && HexDigits(ys) && |xs| == |ys| > 0 && xs[|xs| - 1] != 0
    requires LittleValue(ys) == 10 * LittleValue(xs) + digit
    ensures ys[|ys| - 1] != 0
  {
    TopDigitWeight(xs);
    TopDigit(ys);
  }

  /** The output loop `while (l--) *resultPtr++ = ...` into the 65-character
      string: the digits, most significant first, then NULs. */
  method PrintDigits(x: seq<int>, l: nat) returns (r: string)
    requires l <= |x| && l <= 64 && HexDigits(x[..l])
    ensures r == Reversed(x[..l]) + seq(65 - l, _ => '\0')
  {
    r := seq(65, _ => '\0');
    var k := l;
    var idx := 0;
    while k > 0
      invariant 0 <= k <= l && idx == l - k && |r| == 65
      invariant r[..idx] == Reversed(x[..l])[..idx]
      invariant forall m :: idx <= m < 65 ==> r[m] == '\0'
    {
      k := k - 1;
      assert x[..l][k] == x[k];
      r := r[idx := HexChar(x[k])];
      idx := idx + 1;
    }
  }

  /** The first loop of `uint256DecToHex`: the decimal digits folded, most
      significant first, into little-endian base-16 digits `x[0..l)`. */
  method LittleDigits(decimal: string) returns (x: seq<int>, l: nat)
    requires AllDigits(decimal) && DecValue(decimal) < Pow16(64)
    ensures Digits64(x, l)
    ensures LittleValue(x[..l]) == DecValue(decimal)
  {
    x := seq(64, _ => 0);
    l := 0;
    var j := 0;
    while j < |decimal|
      invariant 0 <= j <= |decimal| && Digits64(x, l)
      invariant AllDigits(decimal[..j]) && LittleValue(x[..l]) == DecValue(decimal[..j])
    {
      NextDigit(decimal, j, Pow16(64));
      x, l := FoldDigit(x, l, decimal[j] as int - '0' as int);
      j := j + 1;
    }
    assert decimal[..j] == decimal;
  }

  /** One more decimal digit: the prefix value grows by it and stays in range. */
  lemma NextDigit(decimal: string, j: nat, bound: nat)
    requires AllDigits(decimal) && DecValue(decimal) < bound && j < |decimal|
    ensures var digit := decimal[j] as int - '0' as int;
      && 0 <= digit < 10 && AllDigits(decimal[..j]) && AllDigits(decimal[..j + 1])
      && DecValue(decimal[..j + 1]) == 10 * DecValue(decimal[..j]) + digit
      && DecValue(decimal[..j + 1]) < bound
  {
    var p := decimal[..j + 1];
    assert AllDigits(p) && DecValue(p) <= DecValue(decimal) by {
      DecValuePrefix(decimal, j + 1);
    }
    assert |p| == j + 1 && p[..j] == decimal[..j] && p[j] == decimal[j];
    assert IsDigit(decimal[j]);
    assert DecValue(p) == 10 * DecValue(p[..j]) + (p[j] as int - '0' as int);
  }

  /** `uint256DecToHex`: the value of a run of decimal digits below 2^256, in
      upper-case hexadecimal, inside a 65-character string padded with NULs. */
  method UInt256DecToHex(decimal: string) returns (r: string)
    requires AllDigits(decimal) && DecValue(decimal) < Pow16(64)
    ensures |HexText(DecValue(decimal))| <= 64
    ensures r == PaddedHex(DecValue(decimal))
  {
    var x, l := LittleDigits(decimal);
    ReversedText(x[..l]);
    r := PrintDigits(x, l);
  }

  /** A value below `16^n` has at most `n` hexadecimal digits. */
  lemma {:induction false} HexTextLength(v: nat, n: nat)
    requires v < Pow16(n)
    ensures |HexText(v)| <= n
  {
    if v > 0 {
      assert n > 0;
      DivBelow(v, 16, Pow16(n - 1));
      HexTextLength(v / 16, n - 1);
    }
  }
}
