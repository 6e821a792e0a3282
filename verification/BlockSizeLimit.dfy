/** A block size of 2^32 or more does not survive the header's 32-bit field: when that matters. */
module BlockSizeLimit {
  import opened Wrappers
  import opened Bytes
  import opened Prng
  import opened Keystream
  import opened Chunks
  import opened Obfuscation
  import opened CounterMode
  import opened ProtectedHeader
  import opened ProtectedCodec

  function FullDecode(p: Primitives, userId: string, plan: Plan, plaintext: seq<byte>, nonce: Block)
    : Result<seq<byte>, CodecError>
    requires |plaintext| <= U64_MAX && plan.mode == Obfuscate
  {
    EncodedLayout(p, userId, plan, plaintext, nonce);
    var payload := Encoded(p, userId, plan, plaintext, nonce).value;
    Decoded(p, userId, plan.keySlotId, None, payload.header, BodyOf(payload), 0, 0, |plaintext|)
  }

  function WrittenKeys(p: Primitives, userId: string, plan: Plan, nonce: Block): Stream {
    BlockKeys(Context(p.hkdf, userId, plan.keySlotId, nonce, plan.prng), AtLeastOne(plan.blockSize))
  }

  function ReadKeys(p: Primitives, userId: string, plan: Plan, nonce: Block): Stream {
    BlockKeys(Context(p.hkdf, userId, plan.keySlotId, nonce, plan.prng), AtLeastOne(plan.blockSize % 0x1_0000_0000))
  }

  lemma FullDecodeIs(p: Primitives, userId: string, plan: Plan, plaintext: seq<byte>, nonce: Block)
    requires |plaintext| <= U64_MAX && plan.mode == Obfuscate
    ensures FullDecode(p, userId, plan, plaintext, nonce)
         == Ok(XorWith(XorWith(plaintext, 0, WrittenKeys(p, userId, plan, nonce)), 0, ReadKeys(p, userId, plan, nonce)))
  {
    hide BlockKeys, Encoded, ProtectedHeader.Decode;
    EncodedLayout(p, userId, plan, plaintext, nonce);
    var body := XorWith(plaintext, 0, WrittenKeys(p, userId, plan, nonce));
    var plain := XorWith(body, 0, ReadKeys(p, userId, plan, nonce));
    assert plain[0..|plaintext|] == plain;
  }

  function MaterialOfState(state: seq<byte>): Material
    requires |state| == 8
  {
    state + seq(24, _ => 0)
  }

  /** Key material whose first mask byte is not `avoid`. */
  function FirstByteOtherThan(kind: Kind, avoid: byte): Material {
    var one := MaterialOfState([1, 0, 0, 0, 0, 0, 0, 0]);
    var other := MaterialOfState(if kind == Xorshift then [2, 0, 0, 0, 0, 0, 0, 0] else [0, 0, 0, 8, 0, 0, 0, 0]);
    if Draw(Seed(kind, one))[0] != avoid then one else other
  }

  lemma FirstBytes()
    ensures Draw(Seed(Xorshift, MaterialOfState([1, 0, 0, 0, 0, 0, 0, 0])))[0] == 0x1d
    ensures Draw(Seed(Xorshift, MaterialOfState([2, 0, 0, 0, 0, 0, 0, 0])))[0] == 0x3a
    ensures Draw(Seed(Pcg, MaterialOfState([1, 0, 0, 0, 0, 0, 0, 0])))[0] == 0
    ensures Draw(Seed(Pcg, MaterialOfState([0, 0, 0, 8, 0, 0, 0, 0])))[0] == 1
  {
    assert MaterialOfState([1, 0, 0, 0, 0, 0, 0, 0])[..8] == [1, 0, 0, 0, 0, 0, 0, 0];
    assert MaterialOfState([2, 0, 0, 0, 0, 0, 0, 0])[..8] == [2, 0, 0, 0, 0, 0, 0, 0];
    assert MaterialOfState([0, 0, 0, 8, 0, 0, 0, 0])[..8] == [0, 0, 0, 8, 0, 0, 0, 0];
  }

  lemma FirstByteDiffers(kind: Kind, avoid: byte)
    ensures Mask(Seed(kind, FirstByteOtherThan(kind, avoid)), 1)[0] != avoid
  {
    FirstBytes();
    hide Draw, Seed, MaterialOfState;
  }

  function MaskByte(kind: Kind, material: Material, offset: nat): byte {
    Mask(Seed(kind, material), offset + 1)[offset]
  }

  function ZeroMaterial(): Material {
    MaterialOfState([0, 0, 0, 0, 0, 0, 0, 0])
  }

  function SplitMaterial(kind: Kind, offset: nat, info: string): Material {
    if info == BlockInfo(1) then FirstByteOtherThan(kind, MaskByte(kind, ZeroMaterial(), offset)) else ZeroMaterial()
  }

  /** Primitives under which block 1 starts with another mask byte than block 0 has at `offset`. */
  function SplittingPrimitives(kind: Kind, offset: nat): Primitives {
    Primitives((salt: string, ikm: seq<byte>, info: string) => SplitMaterial(kind, offset, info),
               (key: Key, block: Block) => block,
               (key: Key, message: seq<byte>) => key,
               (key: Key) => key)
  }

  /**
   * An obfuscated payload decodes to its plaintext under all primitives exactly when the block size
   * fits the header's 32-bit field, or the plaintext fits into one block of the truncated size.
   */
  lemma RoundTripIffBlockSizeFits(userId: string, plan: Plan, plaintext: seq<byte>, nonce: Block)
    requires |plaintext| <= U64_MAX && plan.mode == Obfuscate
    ensures (forall p: Primitives :: FullDecode(p, userId, plan, plaintext, nonce) == Ok(plaintext))
            <==> plan.blockSize < 0x1_0000_0000 || |plaintext| <= AtLeastOne(plan.blockSize % 0x1_0000_0000)
  {
    hide FullDecode;
    if plan.blockSize < 0x1_0000_0000 || |plaintext| <= AtLeastOne(plan.blockSize % 0x1_0000_0000) {
      forall p: Primitives
        ensures FullDecode(p, userId, plan, plaintext, nonce) == Ok(plaintext)
      {
        DecodesWhenBlockSizeFits(p, userId, plan, plaintext, nonce);
      }
    } else {
      DecodeBreaksBeyondTruncatedBlock(userId, plan, plaintext, nonce);
    }
  }

  lemma DecodesWhenBlockSizeFits(p: Primitives, userId: string, plan: Plan, plaintext: seq<byte>, nonce: Block)
    requires |plaintext| <= U64_MAX && plan.mode == Obfuscate
    requires plan.blockSize < 0x1_0000_0000 || |plaintext| <= AtLeastOne(plan.blockSize % 0x1_0000_0000)
    ensures FullDecode(p, userId, plan, plaintext, nonce) == Ok(plaintext)
  {
    hide FullDecode, KeyByte;
    FullDecodeIs(p, userId, plan, plaintext, nonce);
    var ctx := Context(p.hkdf, userId, plan.keySlotId, nonce, plan.prng);
    var written, read := AtLeastOne(plan.blockSize), AtLeastOne(plan.blockSize % 0x1_0000_0000);
    forall pos | 0 <= pos < |plaintext|
      ensures KeyByte(ctx, written, pos) == KeyByte(ctx, read, pos)
    {
      if written != read {
        SameKeyInBlockZero(ctx, written, read, pos);
      }
    }
    assert XorWith(XorWith(plaintext, 0, BlockKeys(ctx, written)), 0, BlockKeys(ctx, read)) == plaintext;
  }

  lemma SameKeyInBlockZero(ctx: Context, a: nat, b: nat, pos: nat)
    requires pos < a && pos < b
    ensures KeyByte(ctx, a, pos) == KeyByte(ctx, b, pos)
  {
    BlockOf(a, 0, pos);
    BlockOf(b, 0, pos);
  }

  lemma DecodeBreaksBeyondTruncatedBlock(userId: string, plan: Plan, plaintext: seq<byte>, nonce: Block)
    requires |plaintext| <= U64_MAX && plan.mode == Obfuscate && plan.blockSize >= 0x1_0000_0000
    requires |plaintext| > AtLeastOne(plan.blockSize % 0x1_0000_0000)
    ensures var offset := AtLeastOne(plan.blockSize % 0x1_0000_0000);
            FullDecode(SplittingPrimitives(plan.prng, offset), userId, plan, plaintext, nonce) != Ok(plaintext)
  {
    hide FullDecode, KeyByte, SplittingPrimitives;
    var offset := AtLeastOne(plan.blockSize % 0x1_0000_0000);
    var p := SplittingPrimitives(plan.prng, offset);
    FullDecodeIs(p, userId, plan, plaintext, nonce);
    var ctx := Context(p.hkdf, userId, plan.keySlotId, nonce, plan.prng);
    KeysSplit(ctx, plan.blockSize, offset);
    var decoded := XorWith(XorWith(plaintext, 0, BlockKeys(ctx, plan.blockSize)), 0, BlockKeys(ctx, offset));
    XorDiffers(plaintext[offset], KeyByte(ctx, plan.blockSize, offset), KeyByte(ctx, offset, offset));
    assert decoded[offset] != plaintext[offset];
  }

  lemma XorDiffers(a: byte, k: byte, l: byte)
    requires k != l
    ensures (a ^ k) ^ l != a
  {}

  lemma KeysSplit(ctx: Context, blockSize: nat, offset: nat)
    requires 1 <= offset < blockSize && ctx.hkdf == SplittingPrimitives(ctx.prng, offset).hkdf
    ensures KeyByte(ctx, blockSize, offset) != KeyByte(ctx, offset, offset)
  {
    hide Mask, Seed, FirstByteOtherThan;
    BlockOf(blockSize, 0, offset);
    BlockOf(offset, 1, 0);
    if BlockInfo(0) == BlockInfo(1) {
      BlockInfoInjective(0, 1);
    }
    FirstByteDiffers(ctx.prng, MaskByte(ctx.prng, ZeroMaterial(), offset));
  }
}
