/** Block masking: each block is XORed with a mask drawn from its own generator. */
module Obfuscation {
  import opened Bytes
  import opened Prng
  import opened Keystream
  import opened Chunks
  import opened Counting
  import Decimal

  type Material = s: seq<byte> | |s| == 32 witness seq(32, _ => 0)

  /** HKDF with SHA-256: salt, input key and info to 32 bytes. It stays uninterpreted: a parameter. */
  type Hkdf = (string, seq<byte>, string) -> Material

  datatype Context = Context(hkdf: Hkdf, userId: string, keySlotId: string, seed: seq<byte>, prng: Kind)

  function BlockInfo(index: nat): string {
    "fileuni:protected:obfuscate:v1:" + Decimal.Show(index)
  }

  function BlockMaterial(ctx: Context, index: nat): Material {
    ctx.hkdf(ctx.userId + ":" + ctx.keySlotId, ctx.seed, BlockInfo(index))
  }

  /** The mask byte of the payload position `pos`: it depends on the position alone. */
  function KeyByte(ctx: Context, blockSize: nat, pos: nat): byte
    requires blockSize >= 1
  {
    Mask(Seed(ctx.prng, BlockMaterial(ctx, pos / blockSize)), pos % blockSize + 1)[pos % blockSize]
  }

  function BlockKeys(ctx: Context, blockSize: nat): Stream
    requires blockSize >= 1
  {
    (pos: nat) => KeyByte(ctx, blockSize, pos)
  }

  /** No two blocks of one payload share an HKDF info string. */
  lemma BlockInfoInjective(i: nat, j: nat)
    requires BlockInfo(i) == BlockInfo(j)
    ensures i == j
  {
    var k := |"fileuni:protected:obfuscate:v1:"|;
    assert BlockInfo(i)[k..] == Decimal.Show(i);
    assert BlockInfo(j)[k..] == Decimal.Show(j);
    Decimal.ShowInjective(i, j);
  }

  /** One draw taken off the front of a mask leaves the mask of the advanced generator. */
  lemma MaskStep(g: Generator, mask: seq<byte>, offset: nat, take: nat)
    requires offset < |mask| && mask[offset..] == Mask(g, |mask| - offset)
    requires take == if |mask| - offset < |Draw(g)| then |mask| - offset else |Draw(g)|
    ensures mask[..offset + take] == mask[..offset] + Draw(g)[..take]
    ensures mask[offset + take..] == Mask(Advance(g), |mask| - offset - take)
  {
    hide Draw, Advance;
    assert mask[offset..][take..] == mask[offset + take..];
    assert mask[offset..][..take] == Draw(g)[..take];
  }

  /**
   * Masks the chunk `buf[lo..hi]` in place: draws words from the generator of `material` and XORs
   * them in, the last one cut to what is left of the chunk.
   */
  method ApplyMask(buf: array<byte>, lo: nat, hi: nat, prng: Kind, material: Material)
    requires lo <= hi <= buf.Length
    modifies buf
    ensures buf[..] == XorAt(old(buf[..]), lo, Mask(Seed(prng, material), hi - lo))
  {
    hide Draw, Advance, Seed, XorAt, Mask;
    var g := Seed(prng, material);
    ghost var was, mask := buf[..], Mask(g, hi - lo);
    var offset := 0;
    XorAtNothing(was, lo, mask[..0]);
    while offset < hi - lo
      invariant 0 <= offset <= hi - lo
      invariant mask[offset..] == Mask(g, hi - lo - offset)
      invariant buf[..] == XorAt(was, lo, mask[..offset])
    {
      var next := Draw(g);
      var take := if hi - lo - offset < |next| then hi - lo - offset else |next|;
      MaskStep(g, mask, offset, take);
      XorInto(buf, lo + offset, next[..take]);
      XorAtThen(was, lo, mask[..offset], next[..take]);
      g, offset := Advance(g), offset + take;
    }
    assert mask[..offset] == mask;
  }

  /** `s` with the chunks in `done` masked; its first chunk is block `startBlock`. */
  ghost function ChunksMasked(s: seq<byte>, blockSize: nat, first: nat, key: Stream, done: set<nat>): (r: seq<byte>)
    requires blockSize >= 1
    ensures |r| == |s|
  {
    seq(|s|, j requires 0 <= j < |s| => if ChunkDone(j, blockSize, done) then s[j] ^ key(first + j) else s[j])
  }

  lemma OneMoreChunk(s: seq<byte>, blockSize: nat, first: nat, key: Stream, done: set<nat>, c: nat)
    requires blockSize >= 1 && c !in done
    ensures ChunksMasked(ChunksMasked(s, blockSize, first, key, done), blockSize, first, key, {c})
         == ChunksMasked(s, blockSize, first, key, done + {c})
  {}

  /** The chunk that the position lies in is done. */
  predicate ChunkDone(j: nat, blockSize: nat, done: set<nat>)
    requires blockSize >= 1
  {
    j / blockSize in done
  }

  lemma AllChunks(s: seq<byte>, blockSize: nat, first: nat, key: Stream, done: set<nat>)
    requires blockSize >= 1
    requires forall c: nat :: c < ChunkCount(|s|, blockSize) ==> c in done
    ensures ChunksMasked(s, blockSize, first, key, done) == XorWith(s, first, key)
  {
    hide ChunksMasked, XorWith, ChunkCount;
    forall j: nat | j < |s|
      ensures ChunkDone(j, blockSize, done)
    {
      ChunkIndexInRange(|s|, blockSize, j);
    }
    MaskedWhereDone(s, blockSize, first, key, done);
  }

  lemma MaskedWhereDone(s: seq<byte>, blockSize: nat, first: nat, key: Stream, done: set<nat>)
    requires blockSize >= 1 && forall j: nat :: j < |s| ==> ChunkDone(j, blockSize, done)
    ensures ChunksMasked(s, blockSize, first, key, done) == XorWith(s, first, key)
  {
    var left, right := ChunksMasked(s, blockSize, first, key, done), XorWith(s, first, key);
    forall j: nat | j < |s|
      ensures left[j] == right[j]
    {
      assert ChunkDone(j, blockSize, done);
    }
  }

  /** The mask of a chunk is the run of key bytes at the chunk's absolute positions. */
  lemma ChunkMaskIsKeyBytes(ctx: Context, blockSize: nat, block: nat, length: nat, offset: nat)
    requires offset < length <= blockSize
    ensures Mask(Seed(ctx.prng, BlockMaterial(ctx, block)), length)[offset]
         == BlockKeys(ctx, blockSize)(block * blockSize + offset)
  {
    hide Mask, Seed;
    BlockOf(blockSize, block, offset);
    MaskPrefix(Seed(ctx.prng, BlockMaterial(ctx, block)), offset + 1, length);
  }

  /** The mask is the run of the stream's bytes from the position on. */
  ghost predicate RunsAt(mask: seq<byte>, key: Stream, at: nat) {
    forall offset :: 0 <= offset < |mask| ==> mask[offset] == key(at + offset)
  }

  lemma ChunkIsMasked(s: seq<byte>, ctx: Context, blockSize: nat, startBlock: nat, index: nat, lo: nat, hi: nat)
    requires blockSize >= 1 && lo == index * blockSize && lo <= |s|
    requires hi == if lo + blockSize <= |s| then lo + blockSize else |s|
    ensures XorAt(s, lo, Mask(Seed(ctx.prng, BlockMaterial(ctx, startBlock + index)), hi - lo))
         == ChunksMasked(s, blockSize, startBlock * blockSize, BlockKeys(ctx, blockSize), {index})
  {
    hide Mask, Seed, KeyByte, BlockKeys, XorAt, ChunksMasked, RunsAt;
    var block, first := startBlock + index, startBlock * blockSize;
    assert first + lo == block * blockSize by {
      Distribute(startBlock, index, blockSize);
    }
    ChunkMaskRun(ctx, blockSize, block, hi - lo, first + lo);
    MaskedChunk(s, blockSize, first, index, lo, hi, Mask(Seed(ctx.prng, BlockMaterial(ctx, block)), hi - lo),
                BlockKeys(ctx, blockSize));
  }

  lemma ChunkMaskRun(ctx: Context, blockSize: nat, block: nat, length: nat, at: nat)
    requires 1 <= blockSize && length <= blockSize && at == block * blockSize
    ensures RunsAt(Mask(Seed(ctx.prng, BlockMaterial(ctx, block)), length), BlockKeys(ctx, blockSize), at)
  {
    hide Mask, Seed, KeyByte, BlockKeys;
    forall offset | 0 <= offset < length
      ensures Mask(Seed(ctx.prng, BlockMaterial(ctx, block)), length)[offset] == BlockKeys(ctx, blockSize)(at + offset)
    {
      ChunkMaskIsKeyBytes(ctx, blockSize, block, length, offset);
    }
  }

  lemma MaskedChunk(s: seq<byte>, blockSize: nat, first: nat, index: nat, lo: nat, hi: nat,
                    mask: seq<byte>, key: Stream)
    requires blockSize >= 1 && lo == index * blockSize && lo <= |s|
    requires hi == if lo + blockSize <= |s| then lo + blockSize else |s|
    requires |mask| == hi - lo && RunsAt(mask, key, first + lo)
    ensures XorAt(s, lo, mask) == ChunksMasked(s, blockSize, first, key, {index})
  {
    var left, right := XorAt(s, lo, mask), ChunksMasked(s, blockSize, first, key, {index});
    forall j | 0 <= j < |s|
      ensures left[j] == right[j]
    {
      OutsideChunk(blockSize, index, j);
      if lo <= j < hi {
        BlockOf(blockSize, index, j - lo);
        assert mask[j - lo] == key(first + lo + (j - lo));
      }
    }
  }

  /** Masks the chunk `index` of `buf`, whose absolute block index is `startBlock + index`. */
  method MaskChunk(buf: array<byte>, ctx: Context, blockSize: nat, startBlock: nat, index: nat)
    requires blockSize >= 1 && index < ChunkCount(buf.Length, blockSize)
    modifies buf
    ensures buf[..] == ChunksMasked(old(buf[..]), blockSize, startBlock * blockSize, BlockKeys(ctx, blockSize), {index})
  {
    var lo := index * blockSize;
    ChunkCountBounds(buf.Length, blockSize);
    MulMonotone(index, ChunkCount(buf.Length, blockSize) - 1, blockSize);
    var hi := if lo + blockSize <= buf.Length then lo + blockSize else buf.Length;
    ChunkIsMasked(buf[..], ctx, blockSize, startBlock, index, lo, hi);
    ApplyMask(buf, lo, hi, ctx.prng, BlockMaterial(ctx, startBlock + index));
  }

  /** The worker pool hands out the chunks in some order; `order` is that order, and any will do. */
  method MaskChunksInOrder(buf: array<byte>, ctx: Context, blockSize: nat, startBlock: nat, order: seq<nat>)
    requires blockSize >= 1
    requires IsPermutation(order, ChunkCount(buf.Length, blockSize))
    modifies buf
    ensures buf[..] == XorWith(old(buf[..]), startBlock * blockSize, BlockKeys(ctx, blockSize))
  {
    ghost var was, key, first := buf[..], BlockKeys(ctx, blockSize), startBlock * blockSize;
    ghost var done: set<nat> := {};
    assert buf[..] == ChunksMasked(was, blockSize, first, key, done);
    for k := 0 to |order|
      invariant forall c :: c in done <==> c in order[..k]
      invariant buf[..] == ChunksMasked(was, blockSize, first, key, done)
    {
      MaskChunk(buf, ctx, blockSize, startBlock, order[k]);
      OneMoreChunk(was, blockSize, first, key, done, order[k]);
      done := done + {order[k]};
      assert order[..k + 1] == order[..k] + [order[k]];
    }
    assert order[..|order|] == order;
    PermutationCovers(order, ChunkCount(buf.Length, blockSize));
    AllChunks(was, blockSize, first, key, done);
  }

  function EffectiveWorkers(requested: nat, cores: nat): (n: nat)
    ensures n >= 1
  {
    if requested != 0 then requested else if cores == 0 then 1 else cores
  }

  /**
   * Masks the whole buffer in place, from the block `startBlock` on. With one worker, or fewer than
   * four chunks, a loop walks the chunks in turn; otherwise the pool picks the order, `schedule`.
   */
  method ObfuscateInPlaceFromBlock(buf: array<byte>, ctx: Context, requestedBlockSize: nat, startBlock: nat,
                                   workers: nat, cores: nat, schedule: seq<nat>)
    requires IsPermutation(schedule, ChunkCount(buf.Length, AtLeastOne(requestedBlockSize)))
    modifies buf
    ensures var blockSize := AtLeastOne(requestedBlockSize);
            buf[..] == XorWith(old(buf[..]), startBlock * blockSize, BlockKeys(ctx, blockSize))
  {
    var blockSize := AtLeastOne(requestedBlockSize);
    var chunkCount := ChunkCount(buf.Length, blockSize);
    if EffectiveWorkers(workers, cores) <= 1 || chunkCount < 4 {
      ghost var was, key, first := buf[..], BlockKeys(ctx, blockSize), startBlock * blockSize;
      ghost var done: set<nat> := {};
      assert buf[..] == ChunksMasked(was, blockSize, first, key, done);
      for index := 0 to chunkCount
        invariant forall c: nat :: c in done <==> c < index
        invariant buf[..] == ChunksMasked(was, blockSize, first, key, done)
      {
        MaskChunk(buf, ctx, blockSize, startBlock, index);
        OneMoreChunk(was, blockSize, first, key, done, index);
        done := done + {index};
      }
      AllChunks(was, blockSize, first, key, done);
    } else {
      MaskChunksInOrder(buf, ctx, blockSize, startBlock, schedule);
    }
  }
}
