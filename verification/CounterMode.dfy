/** Counter mode with a 128-bit big-endian counter over an uninterpreted block cipher. */
module CounterMode {
  import opened Bytes
  import opened Keystream

  type Block = s: seq<byte> | |s| == 16 witness seq(16, _ => 0)
  type Key = s: seq<byte> | |s| == 32 witness seq(32, _ => 0)

  /** The forward cipher function: a key and a block to a block. */
  type Cipher = (Key, Block) -> Block

  const COUNTER_MODULUS: nat := 0x1_0000_0000_0000_0000_0000_0000_0000_0000

  /** The block that lies `blocks` increments after `iv`; the counter wraps around at 2^128. */
  function CounterBlock(iv: Block, blocks: nat): Block {
    BigEndian((FromBigEndian(iv) + blocks) % COUNTER_MODULUS, 16)
  }

  function CounterKeys(cipher: Cipher, key: Key, iv: Block): Stream {
    (pos: nat) => cipher(key, CounterBlock(iv, pos / 16))[pos % 16]
  }

  /** A stream cipher object: it remembers how much of its key stream it has handed out. */
  class CtrStream {
    const cipher: Cipher
    const key: Key
    const iv: Block
    var consumed: nat

    constructor (cipher: Cipher, key: Key, iv: Block)
      ensures this.cipher == cipher && this.key == key && this.iv == iv && consumed == 0
    {
      this.cipher, this.key, this.iv, consumed := cipher, key, iv, 0;
    }

    method ApplyKeystream(buf: array<byte>)
      modifies this, buf
      ensures buf[..] == XorWith(old(buf[..]), old(consumed), CounterKeys(cipher, key, iv))
      ensures consumed == old(consumed) + buf.Length
    {
      ghost var was, keys := buf[..], CounterKeys(cipher, key, iv);
      for j := 0 to buf.Length
        invariant consumed == old(consumed) + j
        invariant forall k :: 0 <= k < buf.Length ==>
                    buf[k] == if k < j then was[k] ^ keys(old(consumed) + k) else was[k]
      {
        buf[j] := buf[j] ^ CounterKeys(cipher, key, iv)(consumed);
        consumed := consumed + 1;
      }
    }
  }

  lemma CounterWidth()
    ensures Pow256(16) == COUNTER_MODULUS
  {
    assert Pow256(4) == 0x1_0000_0000;
    assert Pow256(8) == 0x1_0000_0000 * Pow256(4);
    assert Pow256(12) == 0x1_0000_0000 * Pow256(8);
    assert Pow256(16) == 0x1_0000_0000 * Pow256(12);
  }

  lemma ModAdd(a: nat, b: nat, m: nat)
    requires m > 0
    ensures (a % m + b) % m == (a + b) % m
  {
    var q, r := a / m, a % m;
    var q', r' := (r + b) / m, (r + b) % m;
    assert a + b == m * (q + q') + r';
    DivisionIsUnique(a + b, m, q + q', r');
  }

  lemma DivisionIsUnique(a: nat, m: nat, q: nat, r: nat)
    requires a == m * q + r && r < m
    ensures a % m == r
  {
    var q', r' := a / m, a % m;
    assert m * q' + r' == m * q + r;
    assert m * (q' - q) == r - r';
    assert q' - q >= 1 ==> m * (q' - q) >= m;
    assert q - q' >= 1 ==> m * (q - q') >= m;
  }

  // ---- the counter as bytes ----

  /** One more, byte by byte: the last byte goes up, and a carry goes left over bytes that are full. */
  function Increment(b: seq<byte>): (r: seq<byte>)
    ensures |r| == |b|
  {
    if b == [] then []
    else
      var front, last := b[..|b| - 1], b[|b| - 1];
      if last == 0xff then Increment(front) + [0] else front + [last + 1]
  }

  function Incremented(b: Block, times: nat): Block {
    if times == 0 then b else Increment(Incremented(b, times - 1))
  }

  lemma {:induction false} IncrementAddsOne(b: seq<byte>)
    ensures FromBigEndian(Increment(b)) == (FromBigEndian(b) + 1) % Pow256(|b|)
    decreases |b|
  {
    if b != [] {
      IncrementAddsOne(b[..|b| - 1]);
      hide FromBigEndian, Increment, Pow256;
      IncrementStep(b[..|b| - 1], b[|b| - 1]);
      assert b == b[..|b| - 1] + [b[|b| - 1]];
    }
  }

  lemma IncrementStep(front: seq<byte>, last: byte)
    requires FromBigEndian(Increment(front)) == (FromBigEndian(front) + 1) % Pow256(|front|)
    ensures FromBigEndian(Increment(front + [last]))
         == (FromBigEndian(front + [last]) + 1) % Pow256(|front + [last]|)
  {
    hide Value, FromBigEndian, Increment, Pow256;
    BigEndianOfValue(front);
    LastByte(front, last);
    IncrementLast(front, last);
    CarryOrNot(FromBigEndian(front), Value(last), Pow256(|front|));
  }

  lemma LastByte(front: seq<byte>, last: byte)
    ensures FromBigEndian(front + [last]) == 256 * FromBigEndian(front) + Value(last)
    ensures Pow256(|front + [last]|) == 256 * Pow256(|front|)
  {
    hide Value;
    assert (front + [last])[..|front|] == front;
  }

  lemma IncrementLast(front: seq<byte>, last: byte)
    ensures FromBigEndian(Increment(front + [last]))
         == if Value(last) == 255 then 256 * FromBigEndian(Increment(front))
            else 256 * FromBigEndian(front) + Value(last) + 1
  {
    assert (front + [last])[..|front|] == front;
    FullByte(last);
    hide Value;
    if last == 0xff {
      LastByte(Increment(front), 0);
    } else {
      LastByte(front, last + 1);
    }
  }

  lemma FullByte(b: byte)
    ensures b == 0xff <==> Value(b) == 255
    ensures b != 0xff ==> Value(b + 1) == Value(b) + 1
    ensures Value(0) == 0
  {
    ValueIsNumber(b);
  }

  lemma CarryOrNot(v: nat, low: nat, p: nat)
    requires v < p && low < 256
    ensures (256 * v + low + 1) % (256 * p) == if low == 255 then 256 * ((v + 1) % p) else 256 * v + low + 1
  {
    if low == 255 && v + 1 == p {
      DivisionIsUnique(p, p, 1, 0);
      DivisionIsUnique(256 * p, 256 * p, 1, 0);
    } else {
      DivisionIsUnique(256 * v + low + 1, 256 * p, 0, 256 * v + low + 1);
      DivisionIsUnique(v, p, 0, v);
      if v + 1 < p {
        DivisionIsUnique(v + 1, p, 0, v + 1);
      }
    }
  }

  /** The counter starts at the nonce. */
  lemma FirstCounterBlock(iv: Block)
    ensures CounterBlock(iv, 0) == iv
  {
    hide BigEndian, FromBigEndian, Pow256;
    CounterWidth();
    BigEndianOfValue(iv);
  }

  lemma CounterValue(iv: Block, blocks: nat)
    ensures FromBigEndian(CounterBlock(iv, blocks)) == (FromBigEndian(iv) + blocks) % COUNTER_MODULUS
  {
    hide BigEndian, FromBigEndian, Pow256;
    CounterWidth();
    BigEndianRoundTrip((FromBigEndian(iv) + blocks) % COUNTER_MODULUS, 16);
  }

  /** Each counter block is the byte-wise increment of the one before. */
  lemma NextCounterBlock(iv: Block, blocks: nat)
    ensures CounterBlock(iv, blocks + 1) == Increment(CounterBlock(iv, blocks))
  {
    hide BigEndian, FromBigEndian, Pow256, CounterBlock, Increment;
    var now, next := CounterBlock(iv, blocks), CounterBlock(iv, blocks + 1);
    CounterValue(iv, blocks);
    CounterValue(iv, blocks + 1);
    IncrementAddsOne(now);
    CounterWidth();
    ModAdd(FromBigEndian(iv) + blocks, 1, COUNTER_MODULUS);
    BigEndianOfValue(next);
    BigEndianOfValue(Increment(now));
  }

  /** So the counter counts: after `blocks` blocks it is the nonce incremented that many times. */
  lemma {:induction false} CounterCounts(iv: Block, blocks: nat)
    ensures CounterBlock(iv, blocks) == Incremented(iv, blocks)
  {
    hide CounterBlock, Increment;
    if blocks == 0 {
      FirstCounterBlock(iv);
    } else {
      CounterCounts(iv, blocks - 1);
      NextCounterBlock(iv, blocks - 1);
    }
  }

  /** No counter block comes twice within 2^128 blocks. */
  lemma CounterBlocksDiffer(iv: Block, a: nat, b: nat)
    requires a < b < a + COUNTER_MODULUS
    ensures CounterBlock(iv, a) != CounterBlock(iv, b)
  {
    hide BigEndian, FromBigEndian, Pow256, CounterBlock;
    CounterValue(iv, a);
    CounterValue(iv, b);
    RemaindersDiffer(FromBigEndian(iv) + a, b - a, COUNTER_MODULUS);
  }

  lemma RemaindersDiffer(x: nat, d: nat, m: nat)
    requires 0 < d < m
    ensures x % m != (x + d) % m
  {
    var q, q' := x / m, (x + d) / m;
    assert d + x % m - (x + d) % m == m * (q' - q);
    SmallMultiple(m, q' - q);
  }

  lemma SmallMultiple(m: nat, k: int)
    ensures if k >= 1 then m * k >= m else m * k <= 0
  {}

  /** Seeking: the counter block at `skip` starts a stream that runs `skip` blocks ahead, wrap included. */
  lemma SeekBlocks(iv: Block, skip: nat, blocks: nat)
    ensures CounterBlock(CounterBlock(iv, skip), blocks) == CounterBlock(iv, skip + blocks)
  {
    hide BigEndian, FromBigEndian, Pow256;
    var start := FromBigEndian(iv);
    CounterWidth();
    BigEndianRoundTrip((start + skip) % COUNTER_MODULUS, 16);
    ModAdd(start + skip, blocks, COUNTER_MODULUS);
  }

  /** The stream of a seeked cipher, past the bytes inside its first block, is the original stream at `offset`. */
  lemma SeekBytes(cipher: Cipher, key: Key, iv: Block, offset: nat, i: nat)
    ensures CounterKeys(cipher, key, CounterBlock(iv, offset / 16))(offset % 16 + i)
         == CounterKeys(cipher, key, iv)(offset + i)
  {
    hide CounterBlock;
    var within := offset % 16 + i;
    assert (offset + i) / 16 == offset / 16 + within / 16;
    SeekBlocks(iv, offset / 16, within / 16);
  }

  method EncryptInPlace(buf: array<byte>, cipher: Cipher, key: Key, nonce: Block)
    modifies buf
    ensures buf[..] == XorWith(old(buf[..]), 0, CounterKeys(cipher, key, nonce))
  {
    var stream := new CtrStream(cipher, key, nonce);
    stream.ApplyKeystream(buf);
  }

  /** Applies the key stream from `logicalOffset` on: seeks by whole blocks, then discards a partial block. */
  method EncryptRangeInPlace(buf: array<byte>, cipher: Cipher, key: Key, nonce: Block, logicalOffset: nat)
    modifies buf
    ensures buf[..] == XorWith(old(buf[..]), logicalOffset, CounterKeys(cipher, key, nonce))
  {
    var blockOffset, intraOffset := logicalOffset / 16, logicalOffset % 16;
    var iv := CounterBlock(nonce, blockOffset);
    var stream := new CtrStream(cipher, key, iv);
    if intraOffset > 0 {
      var skip := new byte[intraOffset](_ => 0);
      stream.ApplyKeystream(skip);
    }
    stream.ApplyKeystream(buf);
    SeekStream(cipher, key, nonce, logicalOffset, old(buf[..]));
  }

  lemma SeekStream(cipher: Cipher, key: Key, nonce: Block, offset: nat, s: seq<byte>)
    ensures XorWith(s, offset % 16, CounterKeys(cipher, key, CounterBlock(nonce, offset / 16)))
         == XorWith(s, offset, CounterKeys(cipher, key, nonce))
  {
    hide CounterKeys, CounterBlock, XorWith;
    var within, seeked, original := offset % 16, CounterKeys(cipher, key, CounterBlock(nonce, offset / 16)),
                                    CounterKeys(cipher, key, nonce);
    forall i: nat | i < |s|
      ensures AgreeAt(within, seeked, offset, original, i)
    {
      SeekBytes(cipher, key, nonce, offset, i);
    }
    SameFromThere(s, within, seeked, offset, original);
  }
}
