/** Whole payloads: header, masked or encrypted body, tag table; and decoding of any range of them. */
module ProtectedCodec {
  import opened Wrappers
  import opened Bytes
  import opened Prng
  import opened Keystream
  import opened Chunks
  import opened Counting
  import opened Obfuscation
  import opened CounterMode
  import opened MacTable
  import opened ProtectedHeader
  import opened ProtectedMeta

  type U64 = n: nat | n <= U64_MAX
  const INTEGRITY_CHUNK: nat := 1024 * 1024

  /** The cryptographic primitives, all uninterpreted. */
  datatype Primitives = Primitives(hkdf: Hkdf, cipher: Cipher, hmac: Hmac, deriveMacKey: Key -> Key)

  datatype Plan = Plan(mode: Mode, keySlotId: string, blockSize: nat, prng: Kind, encryptKey: Option<Key>, workers: nat)

  datatype CodecError = MissingKey | StartBeforeWindow | OutOfBounds

  datatype Payload = Payload(bytes: seq<byte>, header: Header, meta: MetaRecord)

  /** How the worker pool is assumed to run: the machine's cores, and the order it serves `n` chunks in. */
  datatype Pool = Pool(cores: nat, order: nat -> seq<nat>) {
    ghost predicate Valid() {
      forall n :: IsPermutation(order(n), n)
    }
  }

  function HeaderOf(plan: Plan, plaintext: seq<byte>, nonce: Block): Header {
    Header(plan.mode, plan.prng, plan.blockSize % 0x1_0000_0000, |plaintext|, nonce)
  }

  /** The key stream a body is written with. */
  function BodyKeys(p: Primitives, userId: string, keySlotId: string, mode: Mode, prng: Kind, blockSize: nat,
                    encryptKey: Option<Key>, nonce: Block): Stream
    requires mode == Encrypt ==> encryptKey.Some?
  {
    match mode
    case Obfuscate => BlockKeys(Context(p.hkdf, userId, keySlotId, nonce, prng), AtLeastOne(blockSize))
    case Encrypt => CounterKeys(p.cipher, encryptKey.value, nonce)
  }

  function PlanKeys(p: Primitives, userId: string, plan: Plan, nonce: Block): Stream
    requires plan.mode == Encrypt ==> plan.encryptKey.Some?
  {
    BodyKeys(p, userId, plan.keySlotId, plan.mode, plan.prng, plan.blockSize, plan.encryptKey, nonce)
  }

  function Table(p: Primitives, plan: Plan, body: seq<byte>): seq<byte>
    requires plan.mode == Encrypt ==> plan.encryptKey.Some?
  {
    if plan.mode == Obfuscate then []
    else Tags(p.hmac, p.deriveMacKey(plan.encryptKey.value), INTEGRITY_CHUNK, 0, body)
  }

  /** The metadata record of a payload: its header, and in encrypt mode how its tags are made. */
  function MetaOf(header: Header): MetaRecord {
    if header.mode == Obfuscate then FromHeader(header)
    else FromHeader(header).(integrity := "hmac-sha256-chunked", integrityChunkSize := Some(INTEGRITY_CHUNK))
  }

  /** What `EncodePayload` computes, as a function of its inputs and of the random nonce. */
  function Encoded(p: Primitives, userId: string, plan: Plan, plaintext: seq<byte>, nonce: Block)
    : Result<Payload, CodecError>
    requires |plaintext| <= U64_MAX
  {
    if plan.mode == Encrypt && plan.encryptKey.None? then Err(MissingKey) else
      var header := HeaderOf(plan, plaintext, nonce);
      var body := XorWith(plaintext, 0, PlanKeys(p, userId, plan, nonce));
      Ok(Payload(ProtectedHeader.Encode(header) + body + Table(p, plan, body), header, MetaOf(header)))
  }

  method EncodePayload(p: Primitives, userId: string, plan: Plan, plaintext: seq<byte>, nonce: Block, pool: Pool)
    returns (r: Result<Payload, CodecError>)
    requires |plaintext| <= U64_MAX && pool.Valid()
    ensures r == Encoded(p, userId, plan, plaintext, nonce)
  {
    hide Tags, XorWith, ProtectedHeader.Encode;
    var payload := new byte[|plaintext|](i requires 0 <= i < |plaintext| => plaintext[i]);
    assert payload[..] == plaintext;
    match plan.mode {
      case Obfuscate =>
        var ctx := Context(p.hkdf, userId, plan.keySlotId, nonce, plan.prng);
        var order := pool.order(ChunkCount(payload.Length, AtLeastOne(plan.blockSize)));
        ObfuscateInPlaceFromBlock(payload, ctx, plan.blockSize, 0, plan.workers, pool.cores, order);
      case Encrypt =>
        if plan.encryptKey.None? {
          return Err(MissingKey);
        }
        EncryptInPlace(payload, p.cipher, plan.encryptKey.value, nonce);
    }
    var header := HeaderOf(plan, plaintext, nonce);
    var meta := FromHeader(header);
    var macTable := [];
    if plan.mode == Encrypt {
      meta := meta.(integrity := "hmac-sha256-chunked", integrityChunkSize := Some(INTEGRITY_CHUNK));
      macTable := BuildEncryptMacTable(p.hmac, p.deriveMacKey(plan.encryptKey.value), INTEGRITY_CHUNK, payload[..]);
    }
    assert payload[..] == XorWith(plaintext, 0, PlanKeys(p, userId, plan, nonce));
    assert macTable == Table(p, plan, payload[..]);
    var out := ProtectedHeader.Encode(header) + payload[..];
    assert out + [] == out;
    if macTable != [] {
      out := out + macTable;
    }
    r := Ok(Payload(out, header, meta));
  }

  function Max(a: nat, b: nat): nat {
    if a < b then b else a
  }

  function Monus(a: nat, b: nat): nat {
    if a < b then 0 else a - b
  }

  /** The end of the requested range, clamped to the payload and to a start past its end. */
  function LogicalEnd(h: Header, start: nat, end: nat): nat {
    Max(Min(end, h.logicalSize), Min(start, h.logicalSize))
  }

  function BlockStart(pos: nat, blockSize: nat): nat
    requires blockSize >= 1
  {
    pos / blockSize * blockSize
  }

  /** What `DecodeRange` computes: the window unmasked from its own position, then cut. */
  function Decoded(p: Primitives, userId: string, keySlotId: string, encryptKey: Option<Key>, h: Header,
                   window: seq<byte>, windowStart: U64, start: U64, end: U64): Result<seq<byte>, CodecError>
    requires h.Valid()
  {
    var last := LogicalEnd(h, start, end);
    if start >= last then Ok([])
    else match h.mode
      case Obfuscate =>
        var blockSize := AtLeastOne(h.blockSize);
        var ctx := Context(p.hkdf, userId, keySlotId, h.seedOrNonce, h.prng);
        var plain := XorWith(window, BlockStart(windowStart, blockSize), BlockKeys(ctx, blockSize));
        var visible := Monus(Min(windowStart + |window|, U64_MAX), windowStart);
        var from := Monus(start, windowStart);
        if from + (last - start) > visible then Err(OutOfBounds) else Ok(plain[from..from + (last - start)])
      case Encrypt =>
        if encryptKey.None? then Err(MissingKey)
        else if start < windowStart then Err(StartBeforeWindow)
        else
          var plain := XorWith(window, windowStart, CounterKeys(p.cipher, encryptKey.value, h.seedOrNonce));
          var from := start - windowStart;
          if from + (last - start) > |window| then Err(OutOfBounds) else Ok(plain[from..from + (last - start)])
  }

  method DecodeObfuscateRange(p: Primitives, userId: string, keySlotId: string, workers: nat, h: Header,
                              window: seq<byte>, windowStart: U64, start: U64, last: U64, pool: Pool)
    returns (r: Result<seq<byte>, CodecError>)
    requires h.Valid() && h.mode == Obfuscate && pool.Valid()
    requires start < last == LogicalEnd(h, start, last)
    ensures r == Decoded(p, userId, keySlotId, None, h, window, windowStart, start, last)
  {
    hide XorWith, BlockKeys, IsPermutation;
    var blockSize := AtLeastOne(h.blockSize);
    var visible := Monus(Min(windowStart + |window|, U64_MAX), windowStart);
    var sliceStart := Monus(start, windowStart);
    var sliceEnd := sliceStart + (last - start);
    var ctx := Context(p.hkdf, userId, keySlotId, h.seedOrNonce, h.prng);
    var buf := UnmaskWindow(ctx, blockSize, workers, window, windowStart, pool);
    var logicalWindow := buf[..visible];
    if sliceEnd > |logicalWindow| {
      return Err(OutOfBounds);
    }
    assert buf[..][..visible][sliceStart..sliceEnd] == buf[..][sliceStart..sliceEnd];
    r := Ok(logicalWindow[sliceStart..sliceEnd]);
  }

  method UnmaskWindow(ctx: Context, blockSize: nat, workers: nat, window: seq<byte>, windowStart: U64, pool: Pool)
    returns (buf: array<byte>)
    requires blockSize >= 1 && pool.Valid()
    ensures fresh(buf) && buf[..] == XorWith(window, BlockStart(windowStart, blockSize), BlockKeys(ctx, blockSize))
  {
    hide XorWith, BlockKeys;
    buf := new byte[|window|](i requires 0 <= i < |window| => window[i]);
    assert buf[..] == window;
    var firstBlock := windowStart / blockSize;
    var order := pool.order(ChunkCount(buf.Length, blockSize));
    ObfuscateInPlaceFromBlock(buf, ctx, blockSize, firstBlock, workers, pool.cores, order);
  }

  method DecodeEncryptRange(p: Primitives, encryptKey: Option<Key>, h: Header,
                            window: seq<byte>, windowStart: U64, start: U64, last: U64)
    returns (r: Result<seq<byte>, CodecError>)
    requires h.Valid() && h.mode == Encrypt
    requires start < last == LogicalEnd(h, start, last)
    ensures r == Decoded(p, "", "", encryptKey, h, window, windowStart, start, last)
  {
    var buf := new byte[|window|](i requires 0 <= i < |window| => window[i]);
    assert buf[..] == window;
    if encryptKey.None? {
      return Err(MissingKey);
    }
    if start < windowStart {
      return Err(StartBeforeWindow);
    }
    EncryptRangeInPlace(buf, p.cipher, encryptKey.value, h.seedOrNonce, windowStart);
    var sliceStart := start - windowStart;
    var sliceEnd := sliceStart + (last - start);
    if sliceEnd > buf.Length {
      return Err(OutOfBounds);
    }
    r := Ok(buf[sliceStart..sliceEnd]);
  }

  method DecodeRange(p: Primitives, userId: string, keySlotId: string, encryptKey: Option<Key>, workers: nat,
                     h: Header, window: seq<byte>, windowStart: U64, start: U64, end: U64, pool: Pool)
    returns (r: Result<seq<byte>, CodecError>)
    requires h.Valid() && pool.Valid()
    ensures r == Decoded(p, userId, keySlotId, encryptKey, h, window, windowStart, start, end)
  {
    var last := LogicalEnd(h, start, end);
    if start >= last {
      return Ok([]);
    }
    match h.mode {
      case Obfuscate =>
        r := DecodeObfuscateRange(p, userId, keySlotId, workers, h, window, windowStart, start, last, pool);
      case Encrypt =>
        r := DecodeEncryptRange(p, encryptKey, h, window, windowStart, start, last);
    }
  }

  /** The plain slice a range request asks for. */
  function SliceLogicalRange(data: seq<byte>, start: nat, end: nat): seq<byte> {
    var from := Min(start, |data|);
    data[from..Max(Min(end, |data|), from)]
  }

  /** A window a caller may decode a range from: it covers the range, and masked windows start on a block. */
  predicate WindowFits(mode: Mode, blockSize: nat, size: nat, lo: nat, hi: nat, start: nat, end: nat) {
    && lo <= hi <= size
    && (start < Min(end, size) ==> lo <= start && Min(end, size) <= hi)
    && (mode == Obfuscate ==> lo % AtLeastOne(blockSize) == 0)
  }

  /** The bytes of a payload between its header and its table. */
  function BodyOf(payload: Payload): seq<byte>
    requires |payload.bytes| >= HEADER_LEN + payload.header.logicalSize
  {
    payload.bytes[HEADER_LEN..HEADER_LEN + payload.header.logicalSize]
  }

  lemma EncodedLayout(p: Primitives, userId: string, plan: Plan, plaintext: seq<byte>, nonce: Block)
    requires |plaintext| <= U64_MAX && (plan.mode == Encrypt ==> plan.encryptKey.Some?)
    ensures Encoded(p, userId, plan, plaintext, nonce).Ok?
    ensures var payload := Encoded(p, userId, plan, plaintext, nonce).value;
            var body := XorWith(plaintext, 0, PlanKeys(p, userId, plan, nonce));
            && payload.header == HeaderOf(plan, plaintext, nonce)
            && ProtectedHeader.Decode(payload.bytes) == Ok(payload.header)
            && IntoHeader(payload.meta) == Ok(payload.header)
            && |payload.bytes| >= HEADER_LEN + |plaintext|
            && BodyOf(payload) == body
            && payload.bytes[HEADER_LEN + |plaintext|..] == Table(p, plan, body)
  {
    hide Tags, XorWith, ProtectedHeader.Encode, ProtectedHeader.Decode;
    var header := HeaderOf(plan, plaintext, nonce);
    var body := XorWith(plaintext, 0, PlanKeys(p, userId, plan, nonce));
    var table := Table(p, plan, body);
    DecodeEncode(header, body + table);
    MetaRoundTrip(header, MetaOf(header).integrity, MetaOf(header).integrityChunkSize);
    assert ProtectedHeader.Encode(header) + body + table == ProtectedHeader.Encode(header) + (body + table);
  }

  /**
   * Random access round trip. Whatever the plan (with a block size the header can hold), the nonce,
   * the plaintext, the range and the window: the header decodes to itself, and decoding the range
   * from the window of the body gives the range of the plaintext.
   */
  lemma RandomAccessRoundTrip(p: Primitives, userId: string, plan: Plan, plaintext: seq<byte>, nonce: Block,
                              lo: nat, hi: nat, start: U64, end: U64)
    requires |plaintext| <= U64_MAX && (plan.mode == Encrypt ==> plan.encryptKey.Some?)
    requires plan.mode == Obfuscate ==> plan.blockSize < 0x1_0000_0000
    requires WindowFits(plan.mode, plan.blockSize, |plaintext|, lo, hi, start, end)
    ensures Encoded(p, userId, plan, plaintext, nonce).Ok?
    ensures var payload := Encoded(p, userId, plan, plaintext, nonce).value;
            && ProtectedHeader.Decode(payload.bytes) == Ok(payload.header)
            && |payload.bytes| >= HEADER_LEN + |plaintext|
            && Decoded(p, userId, plan.keySlotId, plan.encryptKey, payload.header,
                       BodyOf(payload)[lo..hi], lo, start, end)
            == Ok(SliceLogicalRange(plaintext, start, end))
  {
    hide XorWith, Table, ProtectedHeader.Encode, ProtectedHeader.Decode, Encoded, PlanKeys, Decoded;
    EncodedLayout(p, userId, plan, plaintext, nonce);
    var payload, key := Encoded(p, userId, plan, plaintext, nonce).value, PlanKeys(p, userId, plan, nonce);
    WindowRoundTrip(plaintext, key, lo, hi);
    WindowDecodes(p, userId, plan, plaintext, nonce, BodyOf(payload)[lo..hi], lo, hi, start, end);
  }

  /** A window that the key stream turns into plaintext decodes to the wanted part of it. */
  lemma WindowDecodes(p: Primitives, userId: string, plan: Plan, plaintext: seq<byte>, nonce: Block,
                      window: seq<byte>, lo: nat, hi: nat, start: U64, end: U64)
    requires |plaintext| <= U64_MAX && (plan.mode == Encrypt ==> plan.encryptKey.Some?)
    requires plan.mode == Obfuscate ==> plan.blockSize < 0x1_0000_0000
    requires WindowFits(plan.mode, plan.blockSize, |plaintext|, lo, hi, start, end)
    requires XorWith(window, lo, PlanKeys(p, userId, plan, nonce)) == plaintext[lo..hi]
    ensures Decoded(p, userId, plan.keySlotId, plan.encryptKey, HeaderOf(plan, plaintext, nonce), window, lo,
              start, end)
         == Ok(SliceLogicalRange(plaintext, start, end))
  {
    hide XorWith, BlockKeys, CounterKeys, LogicalEnd, SliceLogicalRange;
    var h := HeaderOf(plan, plaintext, nonce);
    WantedPart(h, plaintext, lo, hi, start, end);
    if plan.mode == Obfuscate {
      StartsOnBlock(lo, AtLeastOne(h.blockSize));
    }
  }

  lemma StartsOnBlock(pos: nat, blockSize: nat)
    requires blockSize >= 1 && pos % blockSize == 0
    ensures BlockStart(pos, blockSize) == pos
  {}

  /** The wanted part of the plaintext, as a part of any window that covers it. */
  lemma WantedPart(h: Header, plaintext: seq<byte>, lo: nat, hi: nat, start: nat, end: nat)
    requires h.logicalSize == |plaintext| && lo <= hi <= |plaintext|
    requires start < Min(end, |plaintext|) ==> lo <= start && Min(end, |plaintext|) <= hi
    ensures var last := LogicalEnd(h, start, end);
            if start >= last then SliceLogicalRange(plaintext, start, end) == []
            else && lo <= start && last <= hi
                 && plaintext[lo..hi][start - lo..start - lo + (last - start)] == SliceLogicalRange(plaintext,
                    start, end)
  {
    var last := LogicalEnd(h, start, end);
    if start < last {
      SliceOfWindow(plaintext, lo, hi, start, last);
    }
  }

  lemma SliceOfWindow<T>(s: seq<T>, lo: nat, hi: nat, from: nat, to: nat)
    requires lo <= from <= to <= hi <= |s|
    ensures s[lo..hi][from - lo..from - lo + (to - from)] == s[from..to]
  {
    var left, right := s[lo..hi][from - lo..from - lo + (to - from)], s[from..to];
    forall i | 0 <= i < to - from
      ensures left[i] == right[i]
    {
      assert left[i] == s[lo..hi][from - lo + i] == s[from + i];
    }
  }

  /** Encrypted ranges fail in exactly three ways, checked in this order. */
  lemma EncryptDecodeFailures(p: Primitives, userId: string, keySlotId: string, encryptKey: Option<Key>, h: Header,
                              window: seq<byte>, windowStart: U64, start: U64, end: U64)
    requires h.Valid() && h.mode == Encrypt
    ensures var r := Decoded(p, userId, keySlotId, encryptKey, h, window, windowStart, start, end);
            var wanted := start < Min(end, h.logicalSize);
            && (r == Err(MissingKey) <==> wanted && encryptKey.None?)
            && (r == Err(StartBeforeWindow) <==> wanted && encryptKey.Some? && start < windowStart)
            && (r == Err(OutOfBounds) <==> wanted && encryptKey.Some? && windowStart <= start
                                           && windowStart + |window| < Min(end, h.logicalSize))
  {}
}
