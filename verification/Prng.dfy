/** The two mask generators of the protected payload format, bit for bit. */
module Prng {
  import opened Bytes

  datatype Kind = Xorshift | Pcg

  /** A running generator with the words it updates. */
  datatype Generator = XorshiftGen(state: bv64) | PcgGen(state: bv64, inc: bv64)

  function Word64(s: seq<byte>): bv64
    requires |s| == 8
  {
    (s[0] as bv64) | ((s[1] as bv64) << 8) | ((s[2] as bv64) << 16) | ((s[3] as bv64) << 24)
    | ((s[4] as bv64) << 32) | ((s[5] as bv64) << 40) | ((s[6] as bv64) << 48) | ((s[7] as bv64) << 56)
  }

  function Bytes64(x: bv64): (s: seq<byte>)
    ensures |s| == 8
  {
    [(x & 0xff) as bv8, ((x >> 8) & 0xff) as bv8, ((x >> 16) & 0xff) as bv8, ((x >> 24) & 0xff) as bv8,
     ((x >> 32) & 0xff) as bv8, ((x >> 40) & 0xff) as bv8, ((x >> 48) & 0xff) as bv8, ((x >> 56) & 0xff) as bv8]
  }

  function Bytes32(x: bv32): (s: seq<byte>)
    ensures |s| == 4
  {
    [(x & 0xff) as bv8, ((x >> 8) & 0xff) as bv8, ((x >> 16) & 0xff) as bv8, ((x >> 24) & 0xff) as bv8]
  }

  function XorRight12(x: bv64): bv64 {
    x ^ (x >> 12)
  }

  function XorLeft25(x: bv64): bv64 {
    x ^ (x << 25)
  }

  function XorRight27(x: bv64): bv64 {
    x ^ (x >> 27)
  }

  function XorshiftStep(x: bv64): bv64 {
    XorRight27(XorLeft25(XorRight12(x)))
  }

  function XorshiftOutput(state: bv64): bv64 {
    state * 0x2545_f491_4f6c_dd1d
  }

  function PcgStep(state: bv64, inc: bv64): bv64 {
    state * 6364136223846793005 + (inc | 1)
  }

  function RotateRight32(x: bv32, rot: bv64): bv32
    requires rot < 32
  {
    if rot == 0 then x else (x >> (rot as bv8)) | (x << ((32 - rot) as bv8))
  }

  function PcgOutput(oldState: bv64): bv32 {
    RotateRight32(((((oldState >> 18) ^ oldState) >> 27) & 0xffff_ffff) as bv32, oldState >> 59)
  }

  /** The generator a block starts with, from the block's 32 bytes of key material. */
  function Seed(kind: Kind, material: seq<byte>): Generator
    requires |material| == 32
  {
    var state := Word64(material[..8]);
    match kind
    case Xorshift => XorshiftGen(if state == 0 then 0x9e37_79b9_7f4a_7c15 else state)
    case Pcg => PcgGen(if state == 0 then 0x853c_49e6_748f_ea9b else state, Word64(material[8..16]) | 1)
  }

  /** The generator after one draw. */
  function Advance(g: Generator): Generator {
    match g
    case XorshiftGen(state) => XorshiftGen(XorshiftStep(state))
    case PcgGen(state, inc) => PcgGen(PcgStep(state, inc), inc)
  }

  /** The mask bytes of one draw: eight for xorshift, which steps before it multiplies; four for PCG. */
  function Draw(g: Generator): (s: seq<byte>)
    ensures |s| == if g.XorshiftGen? then 8 else 4
  {
    match g
    case XorshiftGen(state) => Bytes64(XorshiftOutput(XorshiftStep(state)))
    case PcgGen(state, _) => Bytes32(PcgOutput(state))
  }

  /** The first `n` mask bytes. */
  function Mask(g: Generator, n: nat): (s: seq<byte>)
    ensures |s| == n
    decreases n
  {
    if n <= |Draw(g)| then Draw(g)[..n] else Draw(g) + Mask(Advance(g), n - |Draw(g)|)
  }

  function AdvanceBy(g: Generator, steps: nat): Generator
    decreases steps
  {
    if steps == 0 then g else AdvanceBy(Advance(g), steps - 1)
  }

  /** The mask of a partial block is a prefix of the mask of the full block. */
  lemma {:induction false} MaskPrefix(g: Generator, m: nat, n: nat)
    requires m <= n
    ensures Mask(g, m) == Mask(g, n)[..m]
    decreases n
  {
    hide Draw, Advance;
    if m > |Draw(g)| {
      var k := |Draw(g)|;
      MaskPrefix(Advance(g), m - k, n - k);
      assert (Draw(g) + Mask(Advance(g), n - k))[..m] == Draw(g) + Mask(Advance(g), n - k)[..m - k];
    } else if n > |Draw(g)| {
      assert Mask(g, n)[..m] == Draw(g)[..m];
    }
  }

  lemma XorRight12KeepsNonZero(x: bv64)
    requires x != 0
    ensures XorRight12(x) != 0
  {}

  lemma XorLeft25KeepsNonZero(x: bv64)
    requires x != 0
    ensures XorLeft25(x) != 0
  {}

  lemma XorRight27KeepsNonZero(x: bv64)
    requires x != 0
    ensures XorRight27(x) != 0
  {}

  lemma XorshiftStepKeepsNonZero(x: bv64)
    requires x != 0
    ensures XorshiftStep(x) != 0
  {
    hide XorRight12, XorLeft25, XorRight27;
    XorRight12KeepsNonZero(x);
    XorLeft25KeepsNonZero(XorRight12(x));
    XorRight27KeepsNonZero(XorLeft25(XorRight12(x)));
  }

  /** Zero is the fixed point of xorshift; no block's state ever reaches it, at any draw. */
  lemma XorshiftNeverZero(material: seq<byte>, steps: nat)
    requires |material| == 32
    ensures var g := AdvanceBy(Seed(Xorshift, material), steps);
            g.XorshiftGen? && g.state != 0
  {
    NonZeroForever(Seed(Xorshift, material), steps);
  }

  lemma {:induction false} NonZeroForever(g: Generator, steps: nat)
    requires g.XorshiftGen? && g.state != 0
    ensures AdvanceBy(g, steps).XorshiftGen? && AdvanceBy(g, steps).state != 0
    decreases steps
  {
    if steps > 0 {
      XorshiftStepKeepsNonZero(g.state);
      NonZeroForever(Advance(g), steps - 1);
    }
  }
}
