/** What the bytes of a payload are, place by place. */
module PayloadBytes {
  import opened Wrappers
  import opened Bytes
  import opened Prng
  import opened Keystream
  import opened Chunks
  import opened Counting
  import opened Obfuscation
  import opened CounterMode
  import opened MacTable
  import opened ProtectedHeader
  import opened ProtectedCodec
  import Decimal

  /** Byte `i` of an encrypted body is XORed with the cipher's output for the nonce incremented once per 16 bytes. */
  lemma EncryptedBodyByte(p: Primitives, userId: string, plan: Plan, plaintext: seq<byte>, nonce: Block, i: nat)
    requires |plaintext| <= U64_MAX && plan.mode == Encrypt && plan.encryptKey.Some? && i < |plaintext|
    ensures var r := Encoded(p, userId, plan, plaintext, nonce);
            && r.Ok? && |r.value.bytes| >= HEADER_LEN + |plaintext|
            && r.value.bytes[HEADER_LEN + i]
               == plaintext[i] ^ p.cipher(plan.encryptKey.value, Incremented(nonce, i / 16))[i % 16]
  {
    hide Increment, CounterBlock, ProtectedHeader.Encode, ProtectedHeader.Decode, Table, Encoded;
    EncodedLayout(p, userId, plan, plaintext, nonce);
    CounterCounts(nonce, i / 16);
    var payload := Encoded(p, userId, plan, plaintext, nonce).value;
    assert BodyOf(payload)[i] == payload.bytes[HEADER_LEN + i];
  }

  /**
   * Byte `offset` of block `block` of a masked body is XORed with that byte of the block's mask: the
   * generator seeded from the block's own key material, derived for the user, the key slot, the nonce
   * and the block's index.
   */
  lemma MaskedBodyByte(p: Primitives, userId: string, plan: Plan, plaintext: seq<byte>, nonce: Block,
                       size: nat, block: nat, offset: nat, i: nat)
    requires |plaintext| <= U64_MAX && plan.mode == Obfuscate && size == if plan.blockSize == 0 then 1
              else plan.blockSize
    requires offset < size && i == block * size + offset && i < |plaintext|
    ensures var r := Encoded(p, userId, plan, plaintext, nonce);
            var material := p.hkdf(userId + ":" + plan.keySlotId, nonce,
                                   "fileuni:protected:obfuscate:v1:" + Decimal.Show(block));
            && r.Ok? && |r.value.bytes| >= HEADER_LEN + |plaintext|
            && r.value.bytes[HEADER_LEN + i] == plaintext[i] ^ Mask(Seed(plan.prng, material), size)[offset]
  {
    hide Mask, Seed, ProtectedHeader.Encode, ProtectedHeader.Decode, Table, Encoded, KeyByte;
    EncodedLayout(p, userId, plan, plaintext, nonce);
    KeyByteOfMask(Context(p.hkdf, userId, plan.keySlotId, nonce, plan.prng), size, block, offset);
    var payload := Encoded(p, userId, plan, plaintext, nonce).value;
    assert BodyOf(payload)[i] == payload.bytes[HEADER_LEN + i];
  }

  lemma KeyByteOfMask(ctx: Context, size: nat, block: nat, offset: nat)
    requires offset < size
    ensures KeyByte(ctx, size, block * size + offset) == Mask(Seed(ctx.prng, BlockMaterial(ctx, block)), size)[offset]
  {
    hide Mask, Seed;
    BlockOf(size, block, offset);
    MaskPrefix(Seed(ctx.prng, BlockMaterial(ctx, block)), offset + 1, size);
  }

  /** Behind an encrypted body comes, for each chunk of it, the HMAC of the chunk's index and bytes. */
  lemma EncryptedTableEntry(p: Primitives, userId: string, plan: Plan, plaintext: seq<byte>, nonce: Block, i: nat)
    requires |plaintext| <= U64_MAX && plan.mode == Encrypt && plan.encryptKey.Some?
    requires i < (|plaintext| + 1024 * 1024 - 1) / (1024 * 1024)
    ensures var r := Encoded(p, userId, plan, plaintext, nonce);
            && r.Ok? && |r.value.bytes| >= HEADER_LEN + |plaintext|
            && var body := r.value.bytes[HEADER_LEN..HEADER_LEN + |plaintext|];
               var table := r.value.bytes[HEADER_LEN + |plaintext|..];
               && i * MAC_LEN + MAC_LEN <= |table|
               && table[i * MAC_LEN..i * MAC_LEN + MAC_LEN]
                  == p.hmac(p.deriveMacKey(plan.encryptKey.value),
                            LittleEndian(i, 8) + BytesFrom(body, i * (1024 * 1024), 1024 * 1024))
  {
    hide ProtectedHeader.Encode, ProtectedHeader.Decode, Encoded, XorWith, PlanKeys, LittleEndian, Tags, ChunkCount;
    EncodedLayout(p, userId, plan, plaintext, nonce);
    var body := XorWith(plaintext, 0, PlanKeys(p, userId, plan, nonce));
    ChunkCountIsDivCeil(|plaintext|, INTEGRITY_CHUNK);
    TableTagIsAt(p.hmac, p.deriveMacKey(plan.encryptKey.value), INTEGRITY_CHUNK, body, i);
  }

  /** The header, place by place: a magic word, four single bytes, two numbers low byte first, and the nonce. */
  lemma HeaderPlaces(h: Header, k: nat)
    requires h.Valid()
    ensures var raw := ProtectedHeader.Encode(h);
            && raw[..5] == [0x46, 0x55, 0x50, 0x52, 1]
            && raw[5] == (if h.mode == Obfuscate then 1 else 2) && raw[6] == (if h.prng == Xorshift then 1 else 2)
            && raw[7] == 0 && raw[20..36] == h.seedOrNonce
            && (k < 4 ==> Value(raw[8 + k]) == h.blockSize / Pow256(k) % 256)
            && (k < 8 ==> Value(raw[12 + k]) == h.logicalSize / Pow256(k) % 256)
  {
    hide LittleEndian, Value, Pow256;
    if k < 4 {
      LittleEndianPlace(h.blockSize, 4, k);
    }
    if k < 8 {
      LittleEndianPlace(h.logicalSize, 8, k);
    }
  }

  /** A draw and steps of the first generator from known states. */
  lemma KnownXorshift()
    ensures Draw(XorshiftGen(1)) == [0x1d, 0xdd, 0x6c, 0x89, 0x4b, 0xce, 0xe4, 0x47]
    ensures Advance(XorshiftGen(1)) == XorshiftGen(0x2000001)
    ensures Advance(XorshiftGen(0x9e37_79b9_7f4a_7c15)) == XorshiftGen(0x3f721dffe39b342)
  {}

  /** Draws and a step of the second generator from known states, one of them rotated. */
  lemma KnownPcg()
    ensures Advance(PcgGen(1, 3)) == PcgGen(6364136223846793008, 3)
    ensures Advance(PcgGen(1, 4)) == PcgGen(6364136223846793010, 4)
    ensures Draw(PcgGen(0x853c_49e6_748f_ea9b, 3)) == [0x8d, 0xa7, 0x2c, 0x15]
    ensures Draw(PcgGen(0x8000_0001_2345_6789, 3)) == [0x04, 0x00, 0x24, 0x00]
  {}

  /** A state that would be zero is replaced. */
  lemma ZeroSeeds(material: seq<byte>)
    requires |material| == 32 && material[..16] == [0, 0, 0, 0, 0, 0, 0, 0, 0, 0, 0, 0, 0, 0, 0, 0]
    ensures Seed(Xorshift, material) == XorshiftGen(0x9e37_79b9_7f4a_7c15)
    ensures Seed(Pcg, material) == PcgGen(0x853c_49e6_748f_ea9b, 1)
  {
    assert material[..8] == material[..16][..8] && material[8..16] == material[..16][8..];
    assert material[..8] == [0, 0, 0, 0, 0, 0, 0, 0] == material[8..16];
  }

  /** A seed's words are read low byte first. */
  lemma KnownSeed(tail: seq<byte>)
    requires |tail| == 16
    ensures Seed(Pcg, [1, 2, 3, 4, 5, 6, 7, 8, 0x10, 0x20, 0, 0, 0, 0, 0, 0x80] + tail)
         == PcgGen(0x0807_0605_0403_0201, 0x8000_0000_0000_2011)
  {
    var material := [1, 2, 3, 4, 5, 6, 7, 8, 0x10, 0x20, 0, 0, 0, 0, 0, 0x80] + tail;
    assert material[..8] == [1, 2, 3, 4, 5, 6, 7, 8];
    assert material[8..16] == [0x10, 0x20, 0, 0, 0, 0, 0, 0x80];
  }
}
