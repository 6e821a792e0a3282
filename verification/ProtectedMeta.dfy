/** The metadata record kept beside a payload: a textual form of its header. */
module ProtectedMeta {
  import opened Wrappers
  import opened Bytes
  import opened Prng
  import opened Text
  import opened ProtectedHeader

  datatype MetaRecord = MetaRecord(version: byte, mode: string, prng: string, blockSize: nat, logicalSize: nat,
                                   seedOrNonceHex: string, integrity: string, integrityChunkSize: Option<nat>)

  datatype MetaError = BadMode | BadPrng | BadHex | BadSeedSize

  function HexDigit(n: nat): char
    requires n < 16
  {
    if n < 10 then (n + '0' as int) as char else (n - 10 + 'a' as int) as char
  }

  function HexEncode(s: seq<byte>): (r: string)
    ensures |r| == 2 * |s|
  {
    if s == [] then "" else [HexDigit(Value(s[0]) / 16), HexDigit(Value(s[0]) % 16)] + HexEncode(s[1..])
  }

  function HexValue(c: char): nat {
    if '0' <= c <= '9' then c as int - '0' as int
    else if 'a' <= c <= 'f' then c as int - 'a' as int + 10
    else if 'A' <= c <= 'F' then c as int - 'A' as int + 10
    else 16
  }

  function HexDecode(r: string): Result<seq<byte>, MetaError> {
    if r == "" then Ok([])
    else if |r| == 1 || HexValue(r[0]) >= 16 || HexValue(r[1]) >= 16 then Err(BadHex)
    else
      var rest :- HexDecode(r[2..]);
      Ok([ToByte(16 * HexValue(r[0]) + HexValue(r[1]))] + rest)
  }

  function ParseMode(raw: string): Result<Mode, MetaError> {
    var text := ToAsciiLower(Trim(raw));
    if text == "obfuscate" then Ok(Obfuscate) else if text == "encrypt" then Ok(Encrypt) else Err(BadMode)
  }

  function ParsePrng(raw: string): Result<Kind, MetaError> {
    var text := ToAsciiLower(Trim(raw));
    if text == "xorshift" then Ok(Xorshift) else if text == "pcg" then Ok(Pcg) else Err(BadPrng)
  }

  function FromHeader(h: Header): MetaRecord {
    MetaRecord(VERSION, if h.mode == Obfuscate then "obfuscate" else "encrypt",
               if h.prng == Xorshift then "xorshift" else "pcg",
               h.blockSize, h.logicalSize, HexEncode(h.seedOrNonce), "none", None)
  }

  function IntoHeader(m: MetaRecord): Result<Header, MetaError> {
    var mode :- ParseMode(m.mode);
    var prng :- ParsePrng(m.prng);
    var seed :- HexDecode(m.seedOrNonceHex);
    if |seed| != 16 then Err(BadSeedSize) else Ok(Header(mode, prng, m.blockSize, m.logicalSize, seed))
  }

  lemma HexPair(n: nat)
    requires n < 256
    ensures HexValue(HexDigit(n / 16)) == n / 16 && HexValue(HexDigit(n % 16)) == n % 16
    ensures 16 * (n / 16) + n % 16 == n
  {}

  lemma {:induction false} HexRoundTrip(s: seq<byte>)
    ensures HexDecode(HexEncode(s)) == Ok(s)
  {
    hide HexDigit, HexValue;
    if s != [] {
      HexPair(Value(s[0]));
      ValueRoundTrip(s[0]);
      HexRoundTrip(s[1..]);
      assert HexEncode(s)[2..] == HexEncode(s[1..]);
      assert s == [s[0]] + s[1..];
    }
  }

  predicate AllHex(r: string) {
    forall i :: 0 <= i < |r| ==> HexValue(r[i]) < 16
  }

  lemma HexPairBack(a: char, b: char)
    requires HexValue(a) < 16 && HexValue(b) < 16
    ensures HexEncode([ToByte(16 * HexValue(a) + HexValue(b))]) == ToAsciiLower([a, b])
  {
    hide ToByte, Value;
    ByteRoundTrip(16 * HexValue(a) + HexValue(b));
    assert HexDigit(HexValue(a)) == ToAsciiLower([a, b])[0] && HexDigit(HexValue(b)) == ToAsciiLower([a, b])[1];
  }

  /** Decoding accepts exactly the strings of hex digits of even length, in either case, and inverts encoding. */
  lemma {:induction false} HexDecodeExactly(r: string)
    ensures HexDecode(r).Ok? <==> |r| % 2 == 0 && AllHex(r)
    ensures HexDecode(r).Ok? ==> HexEncode(HexDecode(r).value) == ToAsciiLower(r)
  {
    if |r| >= 2 {
      HexDecodeExactly(r[2..]);
      HexDecodeStep(r);
    }
  }

  /** One pair of digits more. */
  lemma HexDecodeStep(r: string)
    requires |r| >= 2
    requires HexDecode(r[2..]).Ok? <==> |r[2..]| % 2 == 0 && AllHex(r[2..])
    requires HexDecode(r[2..]).Ok? ==> HexEncode(HexDecode(r[2..]).value) == ToAsciiLower(r[2..])
    ensures HexDecode(r).Ok? <==> |r| % 2 == 0 && AllHex(r)
    ensures HexDecode(r).Ok? ==> HexEncode(HexDecode(r).value) == ToAsciiLower(r)
  {
    hide HexValue, HexDigit, ToByte, ToAsciiLower, HexEncode, AllHex, HexDecode;
    AllHexStep(r);
    HexDecodeUnfolds(r);
    if HexDecode(r).Ok? {
      HexPairBack(r[0], r[1]);
      LowerStep(r);
      HexEncodeStep(ToByte(16 * HexValue(r[0]) + HexValue(r[1])), HexDecode(r[2..]).value);
    }
  }

  lemma HexDecodeUnfolds(r: string)
    requires |r| >= 2
    ensures HexDecode(r).Ok? <==> HexValue(r[0]) < 16 && HexValue(r[1]) < 16 && HexDecode(r[2..]).Ok?
    ensures HexDecode(r).Ok? ==>
              HexDecode(r).value == [ToByte(16 * HexValue(r[0]) + HexValue(r[1]))] + HexDecode(r[2..]).value
  {
    hide HexValue, ToByte;
  }

  lemma HexEncodeStep(b: byte, rest: seq<byte>)
    ensures HexEncode([b] + rest) == HexEncode([b]) + HexEncode(rest)
  {
    hide HexDigit, Value;
    assert ([b] + rest)[1..] == rest && [b][1..] == [];
  }

  lemma AllHexStep(r: string)
    requires |r| >= 2
    ensures AllHex(r) <==> HexValue(r[0]) < 16 && HexValue(r[1]) < 16 && AllHex(r[2..])
  {
    hide HexValue;
    assert r == [r[0], r[1]] + r[2..];
  }

  lemma LowerStep(r: string)
    requires |r| >= 2
    ensures ToAsciiLower(r) == ToAsciiLower([r[0], r[1]]) + ToAsciiLower(r[2..])
  {}

  /** High digit first, in lower case. */
  lemma KnownHex()
    ensures HexEncode([0x0f, 0xa9, 0x7e]) == "0fa97e"
  {
    ValueIsNumber(0x0f);
    ValueIsNumber(0xa9);
    ValueIsNumber(0x7e);
    hide Value;
    assert HexEncode([0x7e]) == "7e" && [0xa9, 0x7e][1..] == [0x7e] && [0x0f, 0xa9, 0x7e][1..] == [0xa9, 0x7e];
    assert HexEncode([0xa9, 0x7e]) == "a97e";
  }

  /** The names that stand for modes and generators. */
  lemma ParsesOwnNames()
    ensures ParseMode("obfuscate") == Ok(Obfuscate) && ParseMode("encrypt") == Ok(Encrypt)
    ensures ParsePrng("xorshift") == Ok(Xorshift) && ParsePrng("pcg") == Ok(Pcg)
  {
    hide TrimStart, TrimEnd, Trim;
    TrimShape("obfuscate");
    TrimShape("encrypt");
    TrimShape("xorshift");
    TrimShape("pcg");
    assert ToAsciiLower("obfuscate") == "obfuscate" && ToAsciiLower("encrypt") == "encrypt";
    assert ToAsciiLower("xorshift") == "xorshift" && ToAsciiLower("pcg") == "pcg";
  }

  /** A header survives the trip through its metadata record, whatever integrity fields are set on the way. */
  lemma MetaRoundTrip(h: Header, integrity: string, chunkSize: Option<nat>)
    requires |h.seedOrNonce| == 16
    ensures IntoHeader(FromHeader(h).(integrity := integrity, integrityChunkSize := chunkSize)) == Ok(h)
  {
    ParsesOwnNames();
    HexRoundTrip(h.seedOrNonce);
    hide ParseMode, ParsePrng, HexDecode, HexEncode;
  }
}
