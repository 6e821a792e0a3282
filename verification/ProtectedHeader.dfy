/** The 36-byte header in front of every protected payload. */
module ProtectedHeader {
  import opened Wrappers
  import opened Bytes
  import opened Prng

  datatype Mode = Obfuscate | Encrypt

  const HEADER_LEN := 36
  const MAGIC: seq<byte> := [0x46, 0x55, 0x50, 0x52]
  const VERSION: byte := 1

  datatype Header = Header(mode: Mode, prng: Kind, blockSize: nat, logicalSize: nat, seedOrNonce: seq<byte>) {
    /** The ranges of the fixed-width fields. */
    predicate Valid() {
      blockSize < 0x1_0000_0000 && logicalSize < 0x1_0000_0000_0000_0000 && |seedOrNonce| == 16
    }
  }

  datatype HeaderError = TooShort | MagicMismatch | UnsupportedVersion(version: byte)
                       | UnsupportedMode(mode: byte) | UnsupportedPrng(prng: byte)

  function ModeByte(mode: Mode): byte {
    match mode
    case Obfuscate => 1
    case Encrypt => 2
  }

  function ModeOfByte(raw: byte): Result<Mode, HeaderError> {
    if raw == 1 then Ok(Obfuscate) else if raw == 2 then Ok(Encrypt) else Err(UnsupportedMode(raw))
  }

  function PrngByte(prng: Kind): byte {
    match prng
    case Xorshift => 1
    case Pcg => 2
  }

  function PrngOfByte(raw: byte): Result<Kind, HeaderError> {
    if raw == 1 then Ok(Xorshift) else if raw == 2 then Ok(Pcg) else Err(UnsupportedPrng(raw))
  }

  function Encode(h: Header): (raw: seq<byte>)
    requires h.Valid()
    ensures |raw| == HEADER_LEN
  {
    MAGIC + [VERSION, ModeByte(h.mode), PrngByte(h.prng), 0]
    + LittleEndian(h.blockSize, 4) + LittleEndian(h.logicalSize, 8) + h.seedOrNonce
  }

  function Decode(raw: seq<byte>): Result<Header, HeaderError> {
    if |raw| < HEADER_LEN then Err(TooShort)
    else if raw[..4] != MAGIC then Err(MagicMismatch)
    else if raw[4] != VERSION then Err(UnsupportedVersion(raw[4]))
    else
      var mode :- ModeOfByte(raw[5]);
      var prng :- PrngOfByte(raw[6]);
      Ok(Header(mode, prng, FromLittleEndian(raw[8..12]), FromLittleEndian(raw[12..20]), raw[20..36]))
  }

  lemma FieldWidths()
    ensures Pow256(4) == 0x1_0000_0000
    ensures Pow256(8) == 0x1_0000_0000_0000_0000
  {
    assert Pow256(2) == 0x1_0000;
    assert Pow256(6) == 256 * 256 * Pow256(4);
  }

  /** Decoding the front of anything that starts with an encoded header gives that header back. */
  lemma DecodeEncode(h: Header, rest: seq<byte>)
    requires h.Valid()
    ensures Decode(Encode(h) + rest) == Ok(h)
  {
    var raw := Encode(h) + rest;
    FieldWidths();
    LittleEndianRoundTrip(h.blockSize, 4);
    LittleEndianRoundTrip(h.logicalSize, 8);
    assert raw[..4] == MAGIC;
    assert raw[8..12] == LittleEndian(h.blockSize, 4);
    assert raw[12..20] == LittleEndian(h.logicalSize, 8);
    assert raw[20..36] == h.seedOrNonce;
  }

  /** The bytes a decoder accepts: everything it reads is checked, and byte 7 is not read. */
  predicate Acceptable(raw: seq<byte>) {
    |raw| >= HEADER_LEN && raw[..4] == MAGIC && raw[4] == VERSION
    && (raw[5] == 1 || raw[5] == 2) && (raw[6] == 1 || raw[6] == 2)
  }

  /**
   * Decoding succeeds on exactly the acceptable byte strings, and loses nothing but the reserved
   * byte: encoding the result gives the first 36 bytes back, with byte 7 cleared.
   */
  lemma EncodeDecode(raw: seq<byte>)
    ensures Decode(raw).Ok? <==> Acceptable(raw)
    ensures Decode(raw).Ok? ==> Decode(raw).value.Valid() && Encode(Decode(raw).value) == raw[..HEADER_LEN][7 := 0]
  {
    if Acceptable(raw) {
      FieldWidths();
      LittleEndianOfValue(raw[8..12]);
      LittleEndianOfValue(raw[12..20]);
      var h := Decode(raw).value;
      assert Encode(h) == raw[..HEADER_LEN][7 := 0];
    }
  }
}
