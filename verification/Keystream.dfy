/** XOR of a buffer with an infinite stream of key bytes indexed by payload position. */
module Keystream {
  import opened Bytes

  type Stream = nat -> byte

  /** `s`, whose first byte sits at position `first`, XORed byte by byte with the stream. */
  function XorWith(s: seq<byte>, first: nat, key: Stream): (r: seq<byte>)
    ensures |r| == |s|
  {
    seq(|s|, i requires 0 <= i < |s| => s[i] ^ key(first + i))
  }

  /** `s` with `mask` XORed in at index `at`. */
  function XorAt(s: seq<byte>, at: nat, mask: seq<byte>): (r: seq<byte>)
    requires at + |mask| <= |s|
    ensures |r| == |s|
  {
    seq(|s|, i requires 0 <= i < |s| => if at <= i < at + |mask| then s[i] ^ mask[i - at] else s[i])
  }

  /** XORing twice from the same position restores the bytes. */
  lemma XorWithTwice(s: seq<byte>, first: nat, key: Stream)
    ensures XorWith(XorWith(s, first, key), first, key) == s
  {}

  lemma XorWithSlice(s: seq<byte>, first: nat, key: Stream, lo: nat, hi: nat)
    requires lo <= hi <= |s|
    ensures XorWith(s, first, key)[lo..hi] == XorWith(s[lo..hi], first + lo, key)
  {}

  /** Any window of the masked bytes, unmasked from its own position, is the window of the original. */
  lemma WindowRoundTrip(s: seq<byte>, key: Stream, lo: nat, hi: nat)
    requires lo <= hi <= |s|
    ensures XorWith(XorWith(s, 0, key)[lo..hi], lo, key) == s[lo..hi]
  {
    XorWithSlice(s, 0, key, lo, hi);
  }

  predicate AgreeAt(a: nat, k: Stream, b: nat, l: Stream, i: nat) {
    k(a + i) == l(b + i)
  }

  /** Streams that agree from two positions on mask alike from there. */
  lemma SameFromThere(s: seq<byte>, a: nat, k: Stream, b: nat, l: Stream)
    requires forall i: nat :: i < |s| ==> AgreeAt(a, k, b, l, i)
    ensures XorWith(s, a, k) == XorWith(s, b, l)
  {
    var left, right := XorWith(s, a, k), XorWith(s, b, l);
    forall i: nat | i < |s|
      ensures left[i] == right[i]
    {
      assert AgreeAt(a, k, b, l, i);
    }
  }

  lemma XorAtNothing(s: seq<byte>, at: nat, mask: seq<byte>)
    requires at <= |s| && mask == []
    ensures XorAt(s, at, mask) == s
  {}

  lemma XorAtThen(s: seq<byte>, at: nat, mask: seq<byte>, more: seq<byte>)
    requires at + |mask| + |more| <= |s|
    ensures XorAt(XorAt(s, at, mask), at + |mask|, more) == XorAt(s, at, mask + more)
  {}

  /** XORs one draw into `buf[at..at + |mask|]`. */
  method XorInto(buf: array<byte>, at: nat, mask: seq<byte>)
    requires at + |mask| <= buf.Length
    modifies buf
    ensures buf[..] == XorAt(old(buf[..]), at, mask)
  {
    ghost var was := buf[..];
    for j := 0 to |mask|
      invariant buf[..] == XorAt(was, at, mask[..j])
    {
      buf[at + j] := buf[at + j] ^ mask[j];
      assert mask[..j + 1] == mask[..j] + [mask[j]];
      XorAtThen(was, at, mask[..j], [mask[j]]);
    }
    assert mask[..|mask|] == mask;
  }
}
