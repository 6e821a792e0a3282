/** Bytes and the fixed-width integer encodings used by the payload format. */
module Bytes {

  /** The largest 64-bit number. */
  const U64_MAX: nat := 0xffff_ffff_ffff_ffff

  function Min(a: nat, b: nat): nat {
    if a < b then a else b
  }
  type byte = bv8

  /** The eight binary digits of a byte, most significant first. */
  datatype Bits = Bits(b7: bool, b6: bool, b5: bool, b4: bool, b3: bool, b2: bool, b1: bool, b0: bool)

  function ByteOf(d: Bits): byte {
    (if d.b7 then 0x80 else 0) | (if d.b6 then 0x40 else 0) | (if d.b5 then 0x20 else 0) | (if d.b4 then 0x10 else 0)
    | (if d.b3 then 0x08 else 0) | (if d.b2 then 0x04 else 0) | (if d.b1 then 0x02 else 0) | (if d.b0 then 0x01 else 0)
  }

  function BitsOfByte(b: byte): Bits {
    Bits(b & 0x80 != 0, b & 0x40 != 0, b & 0x20 != 0, b & 0x10 != 0,
         b & 0x08 != 0, b & 0x04 != 0, b & 0x02 != 0, b & 0x01 != 0)
  }

  function High(d: Bits): (n: nat)
    ensures n <= 240
  {
    (if d.b7 then 128 else 0) + (if d.b6 then 64 else 0) + (if d.b5 then 32 else 0) + (if d.b4 then 16 else 0)
  }

  function Low(d: Bits): (n: nat)
    ensures n < 16
  {
    (if d.b3 then 8 else 0) + (if d.b2 then 4 else 0) + (if d.b1 then 2 else 0) + (if d.b0 then 1 else 0)
  }

  function NumberOf(d: Bits): (n: nat)
    ensures n < 256
  {
    High(d) + Low(d)
  }

  function Below(n: nat, weight: nat): nat {
    if n >= weight then n - weight else n
  }

  function BitsOfNumber(n: nat): Bits
    requires n < 256
  {
    var n6 := Below(n, 128);
    var n5 := Below(n6, 64);
    var n4 := Below(n5, 32);
    var n3 := Below(n4, 16);
    var n2 := Below(n3, 8);
    var n1 := Below(n2, 4);
    var n0 := Below(n1, 2);
    Bits(n >= 128, n6 >= 64, n5 >= 32, n4 >= 16, n3 >= 8, n2 >= 4, n1 >= 2, n0 >= 1)
  }

  function ToByte(n: nat): byte
    requires n < 256
  {
    ByteOf(BitsOfNumber(n))
  }

  function Value(b: byte): (n: nat)
    ensures n < 256
  {
    NumberOf(BitsOfByte(b))
  }

  lemma BitsBack(d: Bits)
    ensures BitsOfByte(ByteOf(d)) == d
  {}

  lemma ByteBack(b: byte)
    ensures ByteOf(BitsOfByte(b)) == b
  {}

  lemma HighDigits(d: Bits, low: nat)
    requires low < 16
    ensures var n := High(d) + low;
            var n6 := Below(n, 128);
            var n5 := Below(n6, 64);
            var n4 := Below(n5, 32);
            && (n >= 128 <==> d.b7) && (n6 >= 64 <==> d.b6) && (n5 >= 32 <==> d.b5) && (n4 >= 16 <==> d.b4)
            && Below(n4, 16) == low
  {}

  lemma LowDigits(d: Bits)
    ensures var n2 := Below(Low(d), 8);
            var n1 := Below(n2, 4);
            (Low(d) >= 8 <==> d.b3) && (n2 >= 4 <==> d.b2) && (n1 >= 2 <==> d.b1) && (Below(n1, 2) >= 1 <==> d.b0)
  {}

  lemma DigitsBack(d: Bits)
    ensures BitsOfNumber(NumberOf(d)) == d
  {
    hide Below, High, Low;
    HighDigits(d, Low(d));
    LowDigits(d);
  }

  lemma HighBack(n: nat)
    requires n < 256
    ensures var n3 := Below(Below(Below(Below(n, 128), 64), 32), 16); n3 < 16 && High(BitsOfNumber(n)) + n3 == n
  {}

  lemma LowBack(n: nat)
    requires n < 256
    ensures var n3 := Below(Below(Below(Below(n, 128), 64), 32), 16); n3 < 16 ==> Low(BitsOfNumber(n)) == n3
  {}

  lemma NumberBack(n: nat)
    requires n < 256
    ensures NumberOf(BitsOfNumber(n)) == n
  {
    hide Below, High, Low, BitsOfNumber;
    HighBack(n);
    LowBack(n);
  }

  lemma ByteRoundTrip(n: nat)
    requires n < 256
    ensures Value(ToByte(n)) == n
  {
    hide ByteOf, BitsOfByte, NumberOf, BitsOfNumber;
    BitsBack(BitsOfNumber(n));
    NumberBack(n);
  }

  lemma ValueRoundTrip(b: byte)
    ensures ToByte(Value(b)) == b
  {
    hide ByteOf, BitsOfByte, NumberOf, BitsOfNumber;
    DigitsBack(BitsOfByte(b));
    ByteBack(b);
  }

  /** A byte's value is the number it stands for. */
  lemma ValueIsNumber(b: byte)
    ensures Value(b) == b as nat
    ensures b != 0xff ==> Value(b + 1) == Value(b) + 1
  {}

  /** 256 to the power of `width`. */
  function Pow256(width: nat): (p: nat)
    ensures p >= 1
  {
    if width == 0 then 1 else 256 * Pow256(width - 1)
  }

  /** The `width` low-order bytes of `n`, least significant first. */
  function LittleEndian(n: nat, width: nat): (s: seq<byte>)
    ensures |s| == width
  {
    if width == 0 then [] else [ToByte(n % 256)] + LittleEndian(n / 256, width - 1)
  }

  function FromLittleEndian(s: seq<byte>): nat {
    if s == [] then 0 else Value(s[0]) + 256 * FromLittleEndian(s[1..])
  }

  /** The `width` low-order bytes of `n`, most significant first. */
  function BigEndian(n: nat, width: nat): (s: seq<byte>)
    ensures |s| == width
  {
    if width == 0 then [] else BigEndian(n / 256, width - 1) + [ToByte(n % 256)]
  }

  function FromBigEndian(s: seq<byte>): nat {
    if s == [] then 0 else 256 * FromBigEndian(s[..|s| - 1]) + Value(s[|s| - 1])
  }

  lemma {:induction false} LittleEndianRoundTrip(n: nat, width: nat)
    requires n < Pow256(width)
    ensures FromLittleEndian(LittleEndian(n, width)) == n
  {
    hide ToByte, Value;
    if width > 0 {
      ByteRoundTrip(n % 256);
      LittleEndianRoundTrip(n / 256, width - 1);
      assert LittleEndian(n, width)[1..] == LittleEndian(n / 256, width - 1);
    }
  }

  lemma SplitLowByte(v: nat, rest: nat)
    requires v < 256
    ensures (v + 256 * rest) % 256 == v && (v + 256 * rest) / 256 == rest
  {}

  lemma {:induction false} LittleEndianOfValue(s: seq<byte>)
    ensures FromLittleEndian(s) < Pow256(|s|)
    ensures LittleEndian(FromLittleEndian(s), |s|) == s
  {
    hide ToByte, Value;
    if s != [] {
      var v, rest := Value(s[0]), FromLittleEndian(s[1..]);
      LittleEndianOfValue(s[1..]);
      SplitLowByte(v, rest);
      assert ToByte(v) == s[0] by { ValueRoundTrip(s[0]); }
      calc {
        LittleEndian(FromLittleEndian(s), |s|);
        [ToByte((v + 256 * rest) % 256)] + LittleEndian((v + 256 * rest) / 256, |s| - 1);
        [s[0]] + s[1..];
        s;
      }
    }
  }

  lemma {:induction false} BigEndianRoundTrip(n: nat, width: nat)
    requires n < Pow256(width)
    ensures FromBigEndian(BigEndian(n, width)) == n
  {
    hide ToByte, Value;
    if width > 0 {
      ByteRoundTrip(n % 256);
      BigEndianRoundTrip(n / 256, width - 1);
      var s := BigEndian(n, width);
      assert s[..|s| - 1] == BigEndian(n / 256, width - 1);
    }
  }

  /** The byte at place `k` is the digit of that weight in base 256. */
  lemma {:induction false} LittleEndianPlace(n: nat, width: nat, k: nat)
    requires k < width
    ensures Value(LittleEndian(n, width)[k]) == n / Pow256(k) % 256
  {
    hide ToByte, Value;
    ByteRoundTrip(n % 256);
    if k > 0 {
      LittleEndianPlace(n / 256, width - 1, k - 1);
      DivideTwice(n, Pow256(k - 1));
    }
  }

  lemma DivideTwice(n: nat, d: nat)
    requires d >= 1
    ensures n / 256 / d == n / (256 * d)
  {
    var q, r := n / (256 * d), n % (256 * d);
    assert n == 256 * (d * q) + r && r < 256 * d;
    var v, rest := r % 256, r / 256;
    assert n == v + 256 * (d * q + rest);
    SplitLowByte(v, d * q + rest);
    assert rest < d;
    QuotientIs(d * q + rest, d, q, rest);
  }

  lemma QuotientIs(a: nat, d: nat, q: nat, r: nat)
    requires d >= 1 && a == d * q + r && r < d
    ensures a / d == q
  {
    var q', r' := a / d, a % d;
    assert d * (q' - q) == r - r';
    assert q' - q >= 1 ==> d * (q' - q) >= d;
    assert q - q' >= 1 ==> d * (q - q') >= d;
  }

  lemma {:induction false} BigEndianOfValue(s: seq<byte>)
    ensures FromBigEndian(s) < Pow256(|s|)
    ensures BigEndian(FromBigEndian(s), |s|) == s
  {
    hide ToByte, Value;
    if s != [] {
      var v, rest := Value(s[|s| - 1]), FromBigEndian(s[..|s| - 1]);
      BigEndianOfValue(s[..|s| - 1]);
      SplitLowByte(v, rest);
      assert ToByte(v) == s[|s| - 1] by { ValueRoundTrip(s[|s| - 1]); }
      assert BigEndian(v + 256 * rest, |s|) == BigEndian(rest, |s| - 1) + [ToByte(v)];
    }
  }
}
