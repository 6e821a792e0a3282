/** Arithmetic of cutting a buffer into chunks of one size, the last one possibly shorter. */
module Chunks {

  function AtLeastOne(n: nat): (m: nat)
    ensures m >= 1
  {
    if n == 0 then 1 else n
  }

  function FirstChunkLen(length: nat, size: nat): nat {
    if length < size then length else size
  }

  /** How many chunks of `size` bytes a buffer is cut into. */
  function ChunkCount(length: nat, size: nat): nat
    requires size >= 1
    decreases length
  {
    if length == 0 then 0 else 1 + ChunkCount(length - FirstChunkLen(length, size), size)
  }

  lemma MulMonotone(a: nat, b: nat, k: nat)
    ensures a <= b ==> a * k <= b * k
  {}

  lemma Distribute(a: nat, b: nat, k: nat)
    ensures (a + b) * k == a * k + b * k
  {}

  lemma BlockOf(blockSize: nat, index: nat, offset: nat)
    requires offset < blockSize
    ensures (index * blockSize + offset) / blockSize == index
    ensures (index * blockSize + offset) % blockSize == offset
  {
    var pos := index * blockSize + offset;
    var q := pos / blockSize;
    assert pos == q * blockSize + pos % blockSize;
    MulMonotone(q + 1, index, blockSize);
    MulMonotone(index + 1, q, blockSize);
  }

  lemma {:induction false} ChunkCountBounds(length: nat, size: nat)
    requires size >= 1
    ensures length <= ChunkCount(length, size) * size
    ensures length > 0 ==> (ChunkCount(length, size) - 1) * size < length
    decreases length
  {
    if length > size {
      ChunkCountBounds(length - size, size);
      var n := ChunkCount(length - size, size);
      assert (n + 1) * size == n * size + size;
      assert (n - 1) * size == n * size - size;
    } else if length > 0 {
      assert ChunkCount(length, size) == 1 + ChunkCount(0, size);
    }
  }

  /** Counting chunks off the front gives the rounded-up quotient. */
  lemma ChunkCountIsDivCeil(length: nat, size: nat)
    requires size >= 1
    ensures ChunkCount(length, size) == (length + size - 1) / size
  {
    var n := ChunkCount(length, size);
    ChunkCountBounds(length, size);
    if length > 0 {
      var r := length + size - 1 - n * size;
      assert (n - 1) * size == n * size - size;
      BlockOf(size, n, r);
    }
  }

  lemma ChunkIndexInRange(length: nat, size: nat, j: nat)
    requires size >= 1 && j < length
    ensures j / size < ChunkCount(length, size)
  {
    hide ChunkCount;
    ChunkCountBounds(length, size);
    assert j / size * size <= j;
    MulMonotone(ChunkCount(length, size), j / size, size);
  }

  lemma OutsideChunk(blockSize: nat, index: nat, j: nat)
    requires blockSize >= 1
    ensures j / blockSize == index ==> index * blockSize <= j < index * blockSize + blockSize
  {}

  lemma SliceOfTail<T>(s: seq<T>, at: nat, lo: nat, hi: nat)
    requires lo <= hi && at + hi <= |s|
    ensures s[at..][lo..hi] == s[at + lo..at + hi]
    ensures s[at..][hi..] == s[at + hi..]
  {}
}
