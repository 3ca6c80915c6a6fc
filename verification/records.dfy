/** The five fixed 128-byte record shapes and their little-endian field maps.
    Decoding and encoding are exact inverses of each other. */
module Records {
  import opened Bytes
  import opened Checksums

  /** Card header and write-test record: two id bytes, padding, checksum. */
  datatype Header = Header(id: Bytes2, pad: Bytes125, checksum: byte)

  /** One directory entry: allocation state, file size, link to the next
      block, file name, padding, checksum. */
  datatype DirectoryFrame = DirectoryFrame(
    state: u32, filesize: u32, nextBlock: u16, filename: Bytes21, pad: Bytes96, checksum: byte)

  /** One bad-block entry. */
  datatype BrokenFrame = BrokenFrame(brokenFrame: u32, pad: Bytes123, checksum: byte)

  /** 128 raw bytes. */
  datatype Frame = Frame(data: FrameBytes)

  /** First frame of a save block: magic, icon display flags, block number,
      title, reserved bytes and the icon palette. It has no checksum. */
  datatype TitleFrame = TitleFrame(
    id: Bytes2, display: byte, blockNum: byte, title: Bytes64, reserved: Bytes28, iconPalette: Palette)

  // Header: id 0..2, pad 2..127, checksum 127.

  function DecodeHeader(b: FrameBytes): Header
  {
    Header(b[0..2], b[2..127], b[127])
  }

  function EncodeHeader(h: Header): (b: FrameBytes)
    ensures DecodeHeader(b) == h
    ensures b[127] == h.checksum
  {
    var b := h.id + h.pad + [h.checksum];
    assert b[0..2] == h.id && b[2..127] == h.pad;
    b
  }

  lemma EncodeDecodeHeader(b: FrameBytes)
    ensures EncodeHeader(DecodeHeader(b)) == b
  {
    assert b == b[0..2] + b[2..127] + [b[127]];
  }

  // DirectoryFrame: state 0..4, filesize 4..8, next block 8..10,
  // filename 10..31, pad 31..127, checksum 127.

  function DecodeDirectoryFrame(b: FrameBytes): DirectoryFrame
  {
    DirectoryFrame(DecodeU32(b[0..4]), DecodeU32(b[4..8]), DecodeU16(b[8..10]), b[10..31], b[31..127], b[127])
  }

  function EncodeDirectoryFrame(d: DirectoryFrame): (b: FrameBytes)
    ensures DecodeDirectoryFrame(b) == d
    ensures b[127] == d.checksum
  {
    var b := EncodeU32(d.state) + EncodeU32(d.filesize) + EncodeU16(d.nextBlock) + d.filename + d.pad + [d.checksum];
    assert b[0..4] == EncodeU32(d.state) && b[4..8] == EncodeU32(d.filesize) && b[8..10] == EncodeU16(d.nextBlock);
    assert b[10..31] == d.filename && b[31..127] == d.pad;
    b
  }

  lemma EncodeDecodeDirectoryFrame(b: FrameBytes)
    ensures EncodeDirectoryFrame(DecodeDirectoryFrame(b)) == b
  {
    EncodeDecodeU32(b[0..4]);
    EncodeDecodeU32(b[4..8]);
    EncodeDecodeU16(b[8..10]);
    assert b == b[0..4] + b[4..8] + b[8..10] + b[10..31] + b[31..127] + [b[127]];
  }

  // BrokenFrame: broken frame number 0..4, pad 4..127, checksum 127.

  function DecodeBrokenFrame(b: FrameBytes): BrokenFrame
  {
    BrokenFrame(DecodeU32(b[0..4]), b[4..127], b[127])
  }

  function EncodeBrokenFrame(f: BrokenFrame): (b: FrameBytes)
    ensures DecodeBrokenFrame(b) == f
    ensures b[127] == f.checksum
  {
    var b := EncodeU32(f.brokenFrame) + f.pad + [f.checksum];
    assert b[0..4] == EncodeU32(f.brokenFrame) && b[4..127] == f.pad;
    b
  }

  lemma EncodeDecodeBrokenFrame(b: FrameBytes)
    ensures EncodeBrokenFrame(DecodeBrokenFrame(b)) == b
  {
    EncodeDecodeU32(b[0..4]);
    assert b == b[0..4] + b[4..127] + [b[127]];
  }

  // Frame: the bytes themselves.

  function DecodeFrame(b: FrameBytes): Frame
  {
    Frame(b)
  }

  function EncodeFrame(f: Frame): FrameBytes
  {
    f.data
  }

  /** Number of icon frames a title frame's display byte announces: its low
      two bits. */
  function IconCount(display: byte): (k: nat)
    ensures k <= 3
  {
    (display & 0x03) as nat
  }

  // TitleFrame: id 0..2, display 2, block number 3, title 4..68,
  // reserved 68..96, palette 96..128 as 16 little-endian u16.

  function DecodePalette(b: seq<byte>): (p: Palette)
    requires |b| == 32
  {
    seq(16, i requires 0 <= i < 16 => DecodeU16(b[2 * i .. 2 * i + 2]))
  }

  function EncodePalette(p: Palette): (b: seq<byte>)
    ensures |b| == 32
    ensures forall i | 0 <= i < 16 :: b[2 * i .. 2 * i + 2] == EncodeU16(p[i])
    ensures DecodePalette(b) == p
  {
    var b := seq(32, k requires 0 <= k < 32 => EncodeU16(p[k / 2])[k % 2]);
    assert forall i | 0 <= i < 16 :: b[2 * i .. 2 * i + 2] == EncodeU16(p[i]) by {
      forall i | 0 <= i < 16
        ensures b[2 * i .. 2 * i + 2] == EncodeU16(p[i])
      {
        assert (2 * i) / 2 == i && (2 * i + 1) / 2 == i;
      }
    }
    b
  }

  lemma EncodeDecodePalette(b: seq<byte>)
    requires |b| == 32
    ensures EncodePalette(DecodePalette(b)) == b
  {
    var e := EncodePalette(DecodePalette(b));
    forall k | 0 <= k < 32
      ensures e[k] == b[k]
    {
      var i := k / 2;
      EncodeDecodeU16(b[2 * i .. 2 * i + 2]);
      assert e[2 * i .. 2 * i + 2] == b[2 * i .. 2 * i + 2];
      assert e[k] == e[2 * i .. 2 * i + 2][k - 2 * i];
    }
  }

  function DecodeTitleFrame(b: FrameBytes): TitleFrame
  {
    TitleFrame(b[0..2], b[2], b[3], b[4..68], b[68..96], DecodePalette(b[96..128]))
  }

  function EncodeTitleFrame(t: TitleFrame): (b: FrameBytes)
    ensures DecodeTitleFrame(b) == t
    ensures b[2] == t.display
  {
    var b := t.id + [t.display, t.blockNum] + t.title + t.reserved + EncodePalette(t.iconPalette);
    assert b[0..2] == t.id && b[4..68] == t.title && b[68..96] == t.reserved;
    assert b[96..128] == EncodePalette(t.iconPalette);
    b
  }

  lemma EncodeDecodeTitleFrame(b: FrameBytes)
    ensures EncodeTitleFrame(DecodeTitleFrame(b)) == b
  {
    EncodeDecodePalette(b[96..128]);
    assert b == b[0..2] + [b[2], b[3]] + b[4..68] + b[68..96] + b[96..128];
  }

  // Re-stamping: what a record becomes once its encoding has had its
  // checksum recomputed.

  lemma {:induction false} StampEncodeHeader(h: Header)
    ensures Stamp(EncodeHeader(h)) == EncodeHeader(h.(checksum := Checksum(EncodeHeader(h))))
  {
    var b := EncodeHeader(h);
    var h' := h.(checksum := Checksum(b));
    EncodeDecodeHeader(Stamp(b));
    assert DecodeHeader(Stamp(b)) == h' by {
      assert Stamp(b)[0..127] == b[0..127];
    }
  }

  lemma {:induction false} StampEncodeDirectoryFrame(d: DirectoryFrame)
    ensures Stamp(EncodeDirectoryFrame(d)) == EncodeDirectoryFrame(d.(checksum := Checksum(EncodeDirectoryFrame(d))))
  {
    var b := EncodeDirectoryFrame(d);
    EncodeDecodeDirectoryFrame(Stamp(b));
    assert DecodeDirectoryFrame(Stamp(b)) == d.(checksum := Checksum(b)) by {
      assert Stamp(b)[0..127] == b[0..127];
      assert Stamp(b)[0..4] == b[0..4] && Stamp(b)[4..8] == b[4..8] && Stamp(b)[8..10] == b[8..10];
      assert Stamp(b)[10..31] == b[10..31] && Stamp(b)[31..127] == b[31..127];
    }
  }

  lemma {:induction false} StampEncodeBrokenFrame(f: BrokenFrame)
    ensures Stamp(EncodeBrokenFrame(f)) == EncodeBrokenFrame(f.(checksum := Checksum(EncodeBrokenFrame(f))))
  {
    var b := EncodeBrokenFrame(f);
    EncodeDecodeBrokenFrame(Stamp(b));
    assert DecodeBrokenFrame(Stamp(b)) == f.(checksum := Checksum(b)) by {
      assert Stamp(b)[0..4] == b[0..4] && Stamp(b)[4..127] == b[4..127];
    }
  }
}
