/** Block 0 of the card: the card header, 15 directory entries, 20 bad-block
    entries, 27 unused frames and the write-test header, 64 frames in all,
    each carrying a checksum. */
module InfoBlocks {
  import opened Bytes
  import opened Errors
  import opened Checksums
  import opened Records
  import opened Loaders

  const DIR_FRAMES: nat := 15
  const BROKEN_FRAMES: nat := 20
  const UNUSED_FRAMES: nat := 27

  datatype InfoBlock = InfoBlock(
    header: Header,
    dirFrames: seq<DirectoryFrame>,
    brokenFrames: seq<BrokenFrame>,
    unusedFrames: seq<Frame>,
    wrTestFrame: Header)

  /** The record counts a card's info block has. */
  predicate Shaped(ib: InfoBlock)
  {
    |ib.dirFrames| == DIR_FRAMES && |ib.brokenFrames| == BROKEN_FRAMES && |ib.unusedFrames| == UNUSED_FRAMES
  }

  /** `InfoBlock::open`: validate and decode the header at offset 0, then the
      directory, bad-block and unused frames, each stage starting where the
      previous one ended, then the write-test header. */
  function Open(b: BlockBytes): (r: Result<InfoBlock>)
  {
    if !ChecksumOk(b) then Failure(ValidateChecksum(b).error)
    else
      var header := DecodeHeader(Chunk(b, 0));
      match LoadDirectoryFrames(b[FRAME..], DIR_FRAMES)
      case Failure(e) => Failure(e)
      case Success(dirs) => OpenBroken(b, header, dirs)
  }

  /** The stage of `InfoBlock::open` after the directory: the bad-block
      entries start where the directory ends. */
  function OpenBroken(b: BlockBytes, header: Header, dirs: seq<DirectoryFrame>): Result<InfoBlock>
    requires |dirs| == DIR_FRAMES
  {
    var offset := |dirs| * FRAME + FRAME;
    match LoadBrokenFrames(b[offset..], BROKEN_FRAMES)
    case Failure(e) => Failure(e)
    case Success(brokens) => OpenUnused(b, header, dirs, brokens, offset + |brokens| * FRAME)
  }

  /** The last stage of `InfoBlock::open`: the unused frames from `offset`,
      then the write-test header where they end. */
  function OpenUnused(b: BlockBytes, header: Header, dirs: seq<DirectoryFrame>, brokens: seq<BrokenFrame>, offset: nat)
    : Result<InfoBlock>
    requires offset <= BLOCK
  {
    match LoadFrames(b[offset..], UNUSED_FRAMES)
    case Failure(e) => Failure(e)
    case Success(unused) =>
      var offset := offset + |unused| * FRAME;
      if !ChecksumOk(b[offset..]) then Failure(ValidateChecksum(b[offset..]).error)
      else Success(InfoBlock(header, dirs, brokens, unused, DecodeHeader(Chunk(b[offset..], 0))))
  }

  /** The fixed layout of block 0: header at byte 0, directory entries from
      byte 128, bad-block entries from byte 2048, unused frames from byte
      4608, write-test header at byte 8064. */
  function Layout(b: BlockBytes): (ib: InfoBlock)
    ensures Shaped(ib)
  {
    InfoBlock(
      DecodeHeader(Chunk(b, 0)),
      DecodeRun(b, 1, DIR_FRAMES, DecodeDirectoryFrame),
      DecodeRun(b, 16, BROKEN_FRAMES, DecodeBrokenFrame),
      DecodeRun(b, 36, UNUSED_FRAMES, DecodeFrame),
      DecodeHeader(Chunk(b, 63)))
  }

  /** The byte offsets of the layout: header at 0, directory entry `i` at
      128 + 128 * i, bad-block entry `i` at 2048 + 128 * i, unused frame `i`
      at 4608 + 128 * i, write-test header at 8064. */
  lemma LayoutOffsets(b: BlockBytes)
    ensures Layout(b).header == DecodeHeader(b[0..128])
    ensures forall i | 0 <= i < DIR_FRAMES ::
      Layout(b).dirFrames[i] == DecodeDirectoryFrame(b[128 + 128 * i .. 256 + 128 * i])
    ensures forall i | 0 <= i < BROKEN_FRAMES ::
      Layout(b).brokenFrames[i] == DecodeBrokenFrame(b[2048 + 128 * i .. 2176 + 128 * i])
    ensures forall i | 0 <= i < UNUSED_FRAMES ::
      Layout(b).unusedFrames[i] == Frame(b[4608 + 128 * i .. 4736 + 128 * i])
    ensures Layout(b).wrTestFrame == DecodeHeader(b[8064..8192])
  {
  }

  lemma FramesOkSplit(b: BlockBytes)
    ensures FramesOk(b, 0, FRAMES_PER_BLOCK) <==>
      ChecksumOk(Chunk(b, 0)) && FramesOk(b, 1, DIR_FRAMES) && FramesOk(b, 16, BROKEN_FRAMES)
      && FramesOk(b, 36, UNUSED_FRAMES) && ChecksumOk(Chunk(b, 63))
  {
    if ChecksumOk(Chunk(b, 0)) && FramesOk(b, 1, DIR_FRAMES) && FramesOk(b, 16, BROKEN_FRAMES)
      && FramesOk(b, 36, UNUSED_FRAMES) && ChecksumOk(Chunk(b, 63))
    {
      forall i | 0 <= i < FRAMES_PER_BLOCK
        ensures ChecksumOk(Chunk(b, i))
      {
      }
    }
  }

  /** The last stage succeeds exactly when the unused frames and the
      write-test header validate. */
  lemma {:induction false} OpenUnusedSpec(b: BlockBytes, header: Header, dirs: seq<DirectoryFrame>, brokens: seq<BrokenFrame>)
    ensures OpenUnused(b, header, dirs, brokens, FRAME * 36) ==
      if FramesOk(b, 36, UNUSED_FRAMES) && ChecksumOk(Chunk(b, 63))
      then Success(InfoBlock(header, dirs, brokens, DecodeRun(b, 36, UNUSED_FRAMES, DecodeFrame), DecodeHeader(Chunk(b, 63))))
      else Failure(BadChecksum)
  {
    var u := LoadFrames(b[FRAME * 36..], UNUSED_FRAMES);
    LoadRecordsAt(b, 36, UNUSED_FRAMES, DecodeFrame);
    if u.Success? {
      var o := FRAME * 36 + |u.value| * FRAME;
      assert o == FRAME * 63;
      ChunkShift(b, 63, 0);
      ChecksumOkFirstChunk(b[o..]);
    }
  }

  /** The stage after the directory succeeds exactly when the bad-block
      entries, the unused frames and the write-test header validate. */
  lemma {:induction false} OpenBrokenSpec(b: BlockBytes, header: Header, dirs: seq<DirectoryFrame>)
    requires |dirs| == DIR_FRAMES
    ensures OpenBroken(b, header, dirs) ==
      if FramesOk(b, 16, BROKEN_FRAMES) && FramesOk(b, 36, UNUSED_FRAMES) && ChecksumOk(Chunk(b, 63))
      then Success(InfoBlock(header, dirs, DecodeRun(b, 16, BROKEN_FRAMES, DecodeBrokenFrame),
                             DecodeRun(b, 36, UNUSED_FRAMES, DecodeFrame), DecodeHeader(Chunk(b, 63))))
      else Failure(BadChecksum)
  {
    var br := LoadBrokenFrames(b[FRAME * 16..], BROKEN_FRAMES);
    LoadRecordsAt(b, 16, BROKEN_FRAMES, DecodeBrokenFrame);
    if br.Success? {
      OpenUnusedSpec(b, header, dirs, br.value);
    }
  }

  /** Opening block 0 succeeds exactly when all 64 frame checksums hold, and
      then yields the fixed layout; otherwise it reports BadChecksum. */
  lemma {:induction false} OpenSpec(b: BlockBytes)
    ensures Open(b) == if FramesOk(b, 0, FRAMES_PER_BLOCK) then Success(Layout(b)) else Failure(BadChecksum)
  {
    FramesOkSplit(b);
    ChecksumOkFirstChunk(b);
    if ChecksumOk(b) {
      var d := LoadDirectoryFrames(b[FRAME..], DIR_FRAMES);
      LoadRecordsAt(b, 1, DIR_FRAMES, DecodeDirectoryFrame);
      if d.Success? {
        OpenBrokenSpec(b, DecodeHeader(Chunk(b, 0)), d.value);
      }
    }
  }

  /** Frame `k` of `ib` as written: the record at that place in layout
      order, encoded, checksum re-stamped. */
  function WrittenFrame(ib: InfoBlock, k: nat): (f: FrameBytes)
    requires k < 2 + |ib.dirFrames| + |ib.brokenFrames| + |ib.unusedFrames|
    ensures ChecksumOk(f)
  {
    var nd, nb, nu := |ib.dirFrames|, |ib.brokenFrames|, |ib.unusedFrames|;
    if k == 0 then Stamp(EncodeHeader(ib.header))
    else if k <= nd then Stamp(EncodeDirectoryFrame(ib.dirFrames[k - 1]))
    else if k <= nd + nb then Stamp(EncodeBrokenFrame(ib.brokenFrames[k - 1 - nd]))
    else if k <= nd + nb + nu then Stamp(EncodeFrame(ib.unusedFrames[k - 1 - nd - nb]))
    else Stamp(EncodeHeader(ib.wrTestFrame))
  }

  /** The records of `ib` as written, in layout order. */
  function WrittenFrames(ib: InfoBlock): (fs: seq<FrameBytes>)
    ensures |fs| == 2 + |ib.dirFrames| + |ib.brokenFrames| + |ib.unusedFrames|
    ensures forall k | 0 <= k < |fs| :: fs[k] == WrittenFrame(ib, k)
  {
    var n := 2 + |ib.dirFrames| + |ib.brokenFrames| + |ib.unusedFrames|;
    seq(n, k requires 0 <= k < n => WrittenFrame(ib, k))
  }

  /** `InfoBlock::write`: every record, checksum recomputed, in layout
      order. Every frame written validates, whatever the field values. */
  function Write(ib: InfoBlock): (r: seq<byte>)
    ensures |r| == FRAME * (2 + |ib.dirFrames| + |ib.brokenFrames| + |ib.unusedFrames|)
    ensures Shaped(ib) ==> |r| == BLOCK
    ensures forall i | 0 <= i < |r| / FRAME :: ChecksumOk(Chunk(r, i))
  {
    Flatten(WrittenFrames(ib))
  }

  function RestampHeader(h: Header): Header
  {
    h.(checksum := Checksum(EncodeHeader(h)))
  }

  /** What `ib` becomes through a write: each record's checksum field (for a
      plain frame, its last byte) replaced by the checksum of its bytes. */
  function Restamp(ib: InfoBlock): InfoBlock
  {
    InfoBlock(
      RestampHeader(ib.header),
      seq(|ib.dirFrames|, i requires 0 <= i < |ib.dirFrames| =>
        ib.dirFrames[i].(checksum := Checksum(EncodeDirectoryFrame(ib.dirFrames[i])))),
      seq(|ib.brokenFrames|, i requires 0 <= i < |ib.brokenFrames| =>
        ib.brokenFrames[i].(checksum := Checksum(EncodeBrokenFrame(ib.brokenFrames[i])))),
      seq(|ib.unusedFrames|, i requires 0 <= i < |ib.unusedFrames| =>
        Frame(Stamp(ib.unusedFrames[i].data))),
      RestampHeader(ib.wrTestFrame))
  }

  /** Opening what was written gives back the block with fresh checksums,
      whatever edits were made to its fields. */
  lemma {:induction false} OpenWrite(ib: InfoBlock)
    requires Shaped(ib)
    ensures Open(Write(ib)) == Success(Restamp(ib))
  {
    var fs := WrittenFrames(ib);
    var b: BlockBytes := Write(ib);
    assert forall i | 0 <= i < FRAMES_PER_BLOCK :: Chunk(b, i) == fs[i];
    OpenSpec(b);
    assert FramesOk(b, 0, FRAMES_PER_BLOCK);
    LayoutOfWrite(ib);
  }

  lemma {:induction false} LayoutOfWrite(ib: InfoBlock)
    requires Shaped(ib)
    ensures Layout(Write(ib)) == Restamp(ib)
  {
    LayoutOfWrittenHeaders(ib);
    LayoutOfWrittenDirs(ib);
    LayoutOfWrittenBrokens(ib);
    LayoutOfWrittenUnused(ib);
  }

  lemma {:induction false} LayoutOfWrittenHeaders(ib: InfoBlock)
    requires Shaped(ib)
    ensures Layout(Write(ib)).header == Restamp(ib).header
    ensures Layout(Write(ib)).wrTestFrame == Restamp(ib).wrTestFrame
  {
    var b: BlockBytes := Write(ib);
    WrittenHeaderAt(ib, b, 0);
    WrittenHeaderAt(ib, b, 63);
  }

  /** The header and the write-test header, frames 0 and 63, read back as
      their re-stamped selves. */
  lemma {:induction false} WrittenHeaderAt(ib: InfoBlock, b: BlockBytes, k: nat)
    requires Shaped(ib) && b == Write(ib) && (k == 0 || k == 63)
    ensures DecodeHeader(Chunk(b, k)) == RestampHeader(if k == 0 then ib.header else ib.wrTestFrame)
  {
    var h := if k == 0 then ib.header else ib.wrTestFrame;
    assert Chunk(b, k) == WrittenFrames(ib)[k] == WrittenFrame(ib, k) == Stamp(EncodeHeader(h));
    StampEncodeHeader(h);
  }

  lemma {:induction false} LayoutOfWrittenDirs(ib: InfoBlock)
    requires Shaped(ib)
    ensures Layout(Write(ib)).dirFrames == Restamp(ib).dirFrames
  {
    var fs := WrittenFrames(ib);
    var xs := Restamp(ib).dirFrames;
    forall i | 0 <= i < DIR_FRAMES
      ensures DecodeDirectoryFrame(fs[1 + i]) == xs[i]
    {
      StampEncodeDirectoryFrame(ib.dirFrames[i]);
      assert fs[1 + i] == WrittenFrame(ib, 1 + i) == Stamp(EncodeDirectoryFrame(ib.dirFrames[i]));
    }
    DecodeRunOfFlatten(fs, 1, DIR_FRAMES, DecodeDirectoryFrame, xs);
  }

  lemma {:induction false} LayoutOfWrittenBrokens(ib: InfoBlock)
    requires Shaped(ib)
    ensures Layout(Write(ib)).brokenFrames == Restamp(ib).brokenFrames
  {
    var fs := WrittenFrames(ib);
    var xs := Restamp(ib).brokenFrames;
    forall i | 0 <= i < BROKEN_FRAMES
      ensures DecodeBrokenFrame(fs[16 + i]) == xs[i]
    {
      StampEncodeBrokenFrame(ib.brokenFrames[i]);
      assert fs[16 + i] == WrittenFrame(ib, 16 + i) == Stamp(EncodeBrokenFrame(ib.brokenFrames[i]));
    }
    DecodeRunOfFlatten(fs, 16, BROKEN_FRAMES, DecodeBrokenFrame, xs);
  }

  lemma {:induction false} LayoutOfWrittenUnused(ib: InfoBlock)
    requires Shaped(ib)
    ensures Layout(Write(ib)).unusedFrames == Restamp(ib).unusedFrames
  {
    var fs := WrittenFrames(ib);
    var xs := Restamp(ib).unusedFrames;
    forall i | 0 <= i < UNUSED_FRAMES
      ensures DecodeFrame(fs[36 + i]) == xs[i]
    {
      assert fs[36 + i] == WrittenFrame(ib, 36 + i) == Stamp(EncodeFrame(ib.unusedFrames[i]));
    }
    DecodeRunOfFlatten(fs, 36, UNUSED_FRAMES, DecodeFrame, xs);
  }

  /** Writing a block just opened reproduces its bytes exactly. */
  lemma {:induction false} WriteOpen(b: BlockBytes)
    requires Open(b).Success?
    ensures Write(Open(b).value) == b
  {
    OpenSpec(b);
    WrittenLayout(b);
    FlattenChunks(b, FRAMES_PER_BLOCK);
  }

  lemma {:induction false} WrittenLayout(b: BlockBytes)
    requires FramesOk(b, 0, FRAMES_PER_BLOCK)
    ensures WrittenFrames(Layout(b)) == Chunks(b, FRAMES_PER_BLOCK)
  {
    var fs := WrittenFrames(Layout(b));
    var cs := Chunks(b, FRAMES_PER_BLOCK);
    WrittenHeaders(b);
    WrittenRuns(b);
    assert |fs| == |cs|;
    forall j | 0 <= j < FRAMES_PER_BLOCK
      ensures fs[j] == cs[j]
    {
      assert fs[j] == Chunk(b, j);
    }
  }

  lemma {:induction false} WrittenHeaders(b: BlockBytes)
    requires FramesOk(b, 0, FRAMES_PER_BLOCK)
    ensures WrittenFrames(Layout(b))[0] == Chunk(b, 0)
    ensures WrittenFrames(Layout(b))[63] == Chunk(b, 63)
  {
    var ib := Layout(b);
    assert ChecksumOk(Chunk(b, 0));
    assert ChecksumOk(Chunk(b, 63));
    EncodeDecodeHeader(Chunk(b, 0));
    EncodeDecodeHeader(Chunk(b, 63));
    StampValid(Chunk(b, 0));
    StampValid(Chunk(b, 63));
    assert WrittenFrame(ib, 0) == Chunk(b, 0);
    assert WrittenFrame(ib, 63) == Chunk(b, 63);
  }

  lemma {:induction false} WrittenRuns(b: BlockBytes)
    requires FramesOk(b, 0, FRAMES_PER_BLOCK)
    ensures forall j | 1 <= j < 63 :: WrittenFrames(Layout(b))[j] == Chunk(b, j)
  {
    var fs := WrittenFrames(Layout(b));
    forall j | 1 <= j < 63
      ensures fs[j] == Chunk(b, j)
    {
      assert ChecksumOk(Chunk(b, j));
      if j < 16 {
        WrittenDir(b, j);
      } else if j < 36 {
        WrittenBroken(b, j);
      } else {
        WrittenUnused(b, j);
      }
    }
  }

  lemma {:induction false} WrittenDir(b: BlockBytes, j: nat)
    requires 1 <= j < 16 && ChecksumOk(Chunk(b, j))
    ensures WrittenFrame(Layout(b), j) == Chunk(b, j)
  {
    var ib := Layout(b);
    assert ib.dirFrames[j - 1] == DecodeDirectoryFrame(Chunk(b, j));
    EncodeDecodeDirectoryFrame(Chunk(b, j));
    StampValid(Chunk(b, j));
  }

  lemma {:induction false} WrittenBroken(b: BlockBytes, j: nat)
    requires 16 <= j < 36 && ChecksumOk(Chunk(b, j))
    ensures WrittenFrame(Layout(b), j) == Chunk(b, j)
  {
    var ib := Layout(b);
    assert ib.brokenFrames[j - 16] == DecodeBrokenFrame(Chunk(b, j));
    EncodeDecodeBrokenFrame(Chunk(b, j));
    StampValid(Chunk(b, j));
  }

  lemma {:induction false} WrittenUnused(b: BlockBytes, j: nat)
    requires 36 <= j < 63 && ChecksumOk(Chunk(b, j))
    ensures WrittenFrame(Layout(b), j) == Chunk(b, j)
  {
    var ib := Layout(b);
    assert ib.unusedFrames[j - 36] == DecodeFrame(Chunk(b, j));
    StampValid(Chunk(b, j));
  }
}
