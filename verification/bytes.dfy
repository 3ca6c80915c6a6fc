/** Byte-level vocabulary: the layout constants, the fixed-size byte arrays
    the records are made of, little-endian integer fields, and the cutting of
    a buffer into 128-byte frames and 8192-byte blocks. */
module Bytes {

  type byte = bv8
  type u16 = bv16
  type u32 = bv32

  /** Size of a frame, the smallest record of the card. */
  const FRAME: nat := 0x80
  /** Size of a block: 64 frames. */
  const BLOCK: nat := 0x2000
  const FRAMES_PER_BLOCK: nat := 64
  /** A card image is one info block followed by 15 data blocks. */
  const CARD_BLOCKS: nat := 16
  const CARD_SIZE: nat := 0x2_0000

  function Zeros(n: nat): (r: seq<byte>)
    ensures |r| == n
    ensures forall i | 0 <= i < n :: r[i] == 0
  {
    seq(n, _ => 0)
  }

  // The fixed-size arrays of the records.
  type Bytes2 = s: seq<byte> | |s| == 2 witness [0, 0]
  type Bytes21 = s: seq<byte> | |s| == 21 witness Zeros(21)
  type Bytes28 = s: seq<byte> | |s| == 28 witness Zeros(28)
  type Bytes64 = s: seq<byte> | |s| == 64 witness Zeros(64)
  type Bytes96 = s: seq<byte> | |s| == 96 witness Zeros(96)
  type Bytes123 = s: seq<byte> | |s| == 123 witness Zeros(123)
  type Bytes125 = s: seq<byte> | |s| == 125 witness Zeros(125)
  type FrameBytes = s: seq<byte> | |s| == FRAME witness Zeros(FRAME)
  type BlockBytes = s: seq<byte> | |s| == BLOCK witness Zeros(BLOCK)

  /** A 16-entry table of 16-bit colours. */
  type Palette = p: seq<u16> | |p| == 16 witness [0, 0, 0, 0, 0, 0, 0, 0, 0, 0, 0, 0, 0, 0, 0, 0]

  /** The byte with a given value, built up by successive increments so
      that no integer-to-bit-vector conversion is needed. */
  function ByteOf(x: nat): (b: byte)
    requires x < 0x100
    ensures b as int == x
  {
    if x == 0 then 0 else ByteOf(x - 1) + 1
  }

  /** A byte is rebuilt from its own value. */
  lemma ByteOfByte(b: byte)
    ensures ByteOf(b as int) == b
  {
  }

  // Little-endian fields.

  function DecodeU16(b: seq<byte>): u16
    requires |b| == 2
  {
    ((b[1] as u16) << 8) | (b[0] as u16)
  }

  function EncodeU16(x: u16): (r: seq<byte>)
    ensures |r| == 2
    ensures DecodeU16(r) == x
    ensures r[0] == (x & 0xFF) as byte
  {
    [(x & 0xFF) as byte, (x >> 8) as byte]
  }

  lemma EncodeDecodeU16(b: seq<byte>)
    requires |b| == 2
    ensures EncodeU16(DecodeU16(b)) == b
  {
  }

  function DecodeU32(b: seq<byte>): u32
    requires |b| == 4
  {
    ((b[3] as u32) << 24) | ((b[2] as u32) << 16) | ((b[1] as u32) << 8) | (b[0] as u32)
  }

  function EncodeU32(x: u32): (r: seq<byte>)
    ensures |r| == 4
    ensures DecodeU32(r) == x
    ensures r[0] == (x & 0xFF) as byte
  {
    [(x & 0xFF) as byte, ((x >> 8) & 0xFF) as byte, ((x >> 16) & 0xFF) as byte, (x >> 24) as byte]
  }

  lemma EncodeDecodeU32(b: seq<byte>)
    requires |b| == 4
    ensures EncodeU32(DecodeU32(b)) == b
  {
  }

  // Frames inside a buffer.

  /** The `i`-th 128-byte frame of `s`. */
  function Chunk(s: seq<byte>, i: nat): FrameBytes
    requires FRAME * (i + 1) <= |s|
  {
    s[FRAME * i .. FRAME * (i + 1)]
  }

  /** Dropping `k` leading frames renumbers the remaining ones. */
  lemma ChunkShift(s: seq<byte>, k: nat, i: nat)
    requires FRAME * (k + i + 1) <= |s|
    ensures Chunk(s[FRAME * k..], i) == Chunk(s, k + i)
  {
    var t := s[FRAME * k..];
    assert forall j | 0 <= j < FRAME :: Chunk(t, i)[j] == t[FRAME * i + j] == s[FRAME * (k + i) + j];
  }

  /** The frames `cs`, laid end to end. */
  function Flatten(cs: seq<FrameBytes>): (r: seq<byte>)
    ensures |r| == FRAME * |cs|
    ensures forall i | 0 <= i < |cs| :: Chunk(r, i) == cs[i]
  {
    var r := seq(FRAME * |cs|, k requires 0 <= k < FRAME * |cs| => cs[k / FRAME][k % FRAME]);
    assert forall i | 0 <= i < |cs| :: Chunk(r, i) == cs[i] by {
      forall i | 0 <= i < |cs|
        ensures Chunk(r, i) == cs[i]
      {
        forall j | 0 <= j < FRAME
          ensures Chunk(r, i)[j] == cs[i][j]
        {
          assert (FRAME * i + j) / FRAME == i && (FRAME * i + j) % FRAME == j;
        }
      }
    }
    r
  }

  /** The first `n` frames of `s`. */
  function Chunks(s: seq<byte>, n: nat): (cs: seq<FrameBytes>)
    requires FRAME * n <= |s|
    ensures |cs| == n
    ensures forall i | 0 <= i < n :: cs[i] == Chunk(s, i)
  {
    seq(n, i requires 0 <= i < n => Chunk(s, i))
  }

  /** A buffer made of whole frames is the concatenation of its frames. */
  lemma {:induction false} FlattenChunks(s: seq<byte>, n: nat)
    requires |s| == FRAME * n
    ensures Flatten(Chunks(s, n)) == s
  {
    var r := Flatten(Chunks(s, n));
    forall k | 0 <= k < |s|
      ensures r[k] == s[k]
    {
      var i, j := k / FRAME, k % FRAME;
      assert k == FRAME * i + j;
      assert r[k] == Chunk(r, i)[j];
    }
  }

  /** The `i`-th 8192-byte block of `s`. */
  function BlockAt(s: seq<byte>, i: nat): BlockBytes
    requires BLOCK * (i + 1) <= |s|
  {
    s[BLOCK * i .. BLOCK * (i + 1)]
  }

  /** The blocks `bs`, laid end to end. */
  function JoinBlocks(bs: seq<seq<byte>>): (r: seq<byte>)
    requires forall i | 0 <= i < |bs| :: |bs[i]| == BLOCK
    ensures |r| == BLOCK * |bs|
    ensures forall i | 0 <= i < |bs| :: BlockAt(r, i) == bs[i]
  {
    var r := seq(BLOCK * |bs|, k requires 0 <= k < BLOCK * |bs| => bs[k / BLOCK][k % BLOCK]);
    assert forall i | 0 <= i < |bs| :: BlockAt(r, i) == bs[i] by {
      forall i | 0 <= i < |bs|
        ensures BlockAt(r, i) == bs[i]
      {
        forall j | 0 <= j < BLOCK
          ensures BlockAt(r, i)[j] == bs[i][j]
        {
          assert (BLOCK * i + j) / BLOCK == i && (BLOCK * i + j) % BLOCK == j;
        }
      }
    }
    r
  }

  /** Byte strings laid end to end. */
  function Concat(ss: seq<seq<byte>>): (r: seq<byte>)
  {
    if |ss| == 0 then [] else ss[0] + Concat(ss[1..])
  }

  /** Two buffers of `n` whole blocks with the same blocks are equal. */
  lemma {:induction false} BlocksEqual(x: seq<byte>, y: seq<byte>, n: nat)
    requires |x| == |y| == BLOCK * n
    requires forall i | 0 <= i < n :: BlockAt(x, i) == BlockAt(y, i)
    ensures x == y
  {
    forall k | 0 <= k < |x|
      ensures x[k] == y[k]
    {
      var i, m := k / BLOCK, k % BLOCK;
      assert k == BLOCK * i + m;
      assert x[k] == BlockAt(x, i)[m];
      assert y[k] == BlockAt(y, i)[m];
    }
  }

  lemma {:induction false} JoinBlocksCons(ss: seq<seq<byte>>)
    requires |ss| > 0
    requires forall i | 0 <= i < |ss| :: |ss[i]| == BLOCK
    ensures JoinBlocks(ss) == ss[0] + JoinBlocks(ss[1..])
  {
    var t := JoinBlocks(ss[1..]);
    var u := ss[0] + t;
    forall i | 0 <= i < |ss|
      ensures BlockAt(u, i) == BlockAt(JoinBlocks(ss), i)
    {
      if i > 0 {
        assert BlockAt(u, i) == BlockAt(t, i - 1) by {
          forall m | 0 <= m < BLOCK
            ensures BlockAt(u, i)[m] == BlockAt(t, i - 1)[m]
          {
            assert BlockAt(u, i)[m] == u[BLOCK * i + m] == t[BLOCK * (i - 1) + m];
          }
        }
      }
    }
    BlocksEqual(u, JoinBlocks(ss), |ss|);
  }

  /** Laying whole blocks end to end puts block `i` at byte 8192 * i. */
  lemma {:induction false} ConcatBlocks(ss: seq<seq<byte>>)
    requires forall i | 0 <= i < |ss| :: |ss[i]| == BLOCK
    ensures Concat(ss) == JoinBlocks(ss)
  {
    if |ss| > 0 {
      ConcatBlocks(ss[1..]);
      JoinBlocksCons(ss);
    }
  }
}
