/** A save block: its title frame, then `display & 3` icon frames, then the
    remaining frames of save data. Save blocks carry no checksums. */
module DataBlocks {
  import opened Bytes
  import opened Errors
  import opened Records
  import opened Loaders

  datatype DataBlock = DataBlock(titleFrame: TitleFrame, iconFrames: seq<Frame>, dataFrames: seq<Frame>)

  /** A block whose icon-frame count is the announced one and whose frames
      fill exactly one block. */
  predicate Shaped(db: DataBlock)
  {
    var k := IconCount(db.titleFrame.display);
    1 <= k && |db.iconFrames| == k && |db.dataFrames| == FRAMES_PER_BLOCK - 1 - k
  }

  /** The loop of `read_n_frames`, `have` frames in: take a frame (failing
      when fewer than 128 bytes remain), stop once `n` are held. No checksum
      is looked at. */
  function ReadFrames(input: seq<byte>, n: nat, have: nat): (r: Result<seq<FrameBytes>>)
    ensures r.Success? ==> have < n && FRAME * (n - have) <= |input| && |r.value| == n - have
    ensures r.Failure? ==> r.error == Incomplete
    decreases |input|
  {
    if |input| < FRAME then Failure(Incomplete)
    else
      var f := Chunk(input, 0);
      if have + 1 == n then Success([f])
      else
        match ReadFrames(input[FRAME..], n, have + 1)
        case Failure(e) => Failure(e)
        case Success(fs) => Success([f] + fs)
  }

  lemma {:induction false} ReadFramesSpec(input: seq<byte>, n: nat, have: nat)
    ensures have < n && FRAME * (n - have) <= |input| ==> ReadFrames(input, n, have).Success?
    ensures var r := ReadFrames(input, n, have);
      r.Success? ==> forall i | 0 <= i < n - have :: r.value[i] == Chunk(input, i)
    decreases |input|
  {
    if FRAME <= |input| && have + 1 != n {
      var rest := input[FRAME..];
      ReadFramesSpec(rest, n, have + 1);
      var r := ReadFrames(input, n, have);
      if r.Success? {
        var fs := ReadFrames(rest, n, have + 1).value;
        assert r.value == [Chunk(input, 0)] + fs;
        forall i | 1 <= i < n - have
          ensures r.value[i] == Chunk(input, i)
        {
          ChunkShift(input, 1, i - 1);
          assert r.value[i] == fs[i - 1];
        }
      }
    }
  }

  /** `read_n_frames`: the first `n` frames of `input`. A count of 0 reads
      to the end of the input and then fails. */
  function ReadNFrames(input: seq<byte>, n: nat): (r: Result<seq<Frame>>)
    ensures r.Success? <==> 1 <= n && FRAME * n <= |input|
    ensures r.Failure? ==> r.error == Incomplete
    ensures r.Success? ==> |r.value| == n && forall i | 0 <= i < n :: r.value[i] == Frame(Chunk(input, i))
  {
    ReadFramesSpec(input, n, 0);
    match ReadFrames(input, n, 0)
    case Failure(e) => Failure(e)
    case Success(cs) => Success(seq(|cs|, i requires 0 <= i < |cs| => DecodeFrame(cs[i])))
  }

  /** Read from frame `k` of a buffer, `read_n_frames` yields frames
      `k`..`k + n - 1`. */
  lemma ReadNFramesAt(b: seq<byte>, k: nat, n: nat)
    requires 1 <= n && FRAME * (k + n) <= |b|
    ensures ReadNFrames(b[FRAME * k..], n) == Success(DecodeRun(b, k, n, DecodeFrame))
  {
    forall i | 0 <= i < n
      ensures Chunk(b[FRAME * k..], i) == Chunk(b, k + i)
    {
      ChunkShift(b, k, i);
    }
    var r := ReadNFrames(b[FRAME * k..], n);
    assert r.value == DecodeRun(b, k, n, DecodeFrame);
  }

  /** `DataBlock::load_data_block`: the title frame at offset 0, then
      `display & 3` icon frames, then as many frames as fit in the rest of
      the block. */
  function LoadDataBlock(b: BlockBytes): (r: Result<DataBlock>)
  {
    var title := DecodeTitleFrame(Chunk(b, 0));
    var k := IconCount(title.display);
    match ReadNFrames(b[FRAME..], k)
    case Failure(e) => Failure(e)
    case Success(icons) =>
      var next := FRAME + FRAME * |icons|;
      var count := |b[next..]| / FRAME;
      match ReadNFrames(b[next..], count)
      case Failure(e) => Failure(e)
      case Success(data) => Success(DataBlock(title, icons, data))
  }

  /** Loading a save block succeeds exactly when the display byte (byte 2)
      announces 1 to 3 icon frames; the icons are then frames 1..k and the
      save data the 63 - k frames after them. With 0 the icon read runs off
      the end of the block and fails. */
  lemma {:induction false} LoadDataBlockSpec(b: BlockBytes)
    ensures var k := IconCount(b[2]);
      LoadDataBlock(b) == if k == 0 then Failure(Incomplete)
        else Success(DataBlock(DecodeTitleFrame(Chunk(b, 0)),
                               DecodeRun(b, 1, k, DecodeFrame),
                               DecodeRun(b, 1 + k, FRAMES_PER_BLOCK - 1 - k, DecodeFrame)))
  {
    var k := IconCount(b[2]);
    assert DecodeTitleFrame(Chunk(b, 0)).display == b[2];
    if k != 0 {
      ReadNFramesAt(b, 1, k);
      ReadNFramesAt(b, 1 + k, FRAMES_PER_BLOCK - 1 - k);
    }
  }

  /** `DataBlock::write`: the title frame, the icon frames, the save frames,
      verbatim: no checksum is recomputed. */
  function Write(db: DataBlock): (r: seq<byte>)
    ensures |r| == FRAME * (1 + |db.iconFrames| + |db.dataFrames|)
    ensures Shaped(db) ==> |r| == BLOCK
    ensures Chunk(r, 0) == EncodeTitleFrame(db.titleFrame)
    ensures forall i | 0 <= i < |db.iconFrames| :: Chunk(r, 1 + i) == db.iconFrames[i].data
    ensures forall i | 0 <= i < |db.dataFrames| ::
      Chunk(r, 1 + |db.iconFrames| + i) == db.dataFrames[i].data
  {
    var fs := [EncodeTitleFrame(db.titleFrame)]
      + seq(|db.iconFrames|, i requires 0 <= i < |db.iconFrames| => EncodeFrame(db.iconFrames[i]))
      + seq(|db.dataFrames|, i requires 0 <= i < |db.dataFrames| => EncodeFrame(db.dataFrames[i]));
    assert forall i | 0 <= i < |db.iconFrames| :: fs[1 + i] == db.iconFrames[i].data;
    assert forall i | 0 <= i < |db.dataFrames| :: fs[1 + |db.iconFrames| + i] == db.dataFrames[i].data;
    Flatten(fs)
  }

  /** Loading what was written gives the block back unchanged. */
  lemma {:induction false} LoadWrite(db: DataBlock)
    requires Shaped(db)
    ensures LoadDataBlock(Write(db)) == Success(db)
  {
    var b: BlockBytes := Write(db);
    var k := IconCount(db.titleFrame.display);
    assert b[2] == Chunk(b, 0)[2] == db.titleFrame.display;
    LoadDataBlockSpec(b);
    assert DecodeRun(b, 1, k, DecodeFrame) == db.iconFrames;
    assert DecodeRun(b, 1 + k, FRAMES_PER_BLOCK - 1 - k, DecodeFrame) == db.dataFrames;
  }

  /** Writing a block just loaded reproduces its 8192 bytes exactly. */
  lemma {:induction false} WriteLoad(b: BlockBytes)
    requires LoadDataBlock(b).Success?
    ensures Write(LoadDataBlock(b).value) == b
  {
    LoadDataBlockSpec(b);
    var db := LoadDataBlock(b).value;
    var w := Write(db);
    forall j | 0 <= j < FRAMES_PER_BLOCK
      ensures Chunk(w, j) == Chunk(b, j)
    {
      WrittenChunk(b, db, w, j);
    }
    assert Chunks(w, FRAMES_PER_BLOCK) == Chunks(b, FRAMES_PER_BLOCK);
    FlattenChunks(w, FRAMES_PER_BLOCK);
    FlattenChunks(b, FRAMES_PER_BLOCK);
  }

  /** Frame `j` of the block written from what `b` loads to is frame `j`
      of `b`. */
  lemma {:induction false} WrittenChunk(b: BlockBytes, db: DataBlock, w: seq<byte>, j: nat)
    requires IconCount(b[2]) != 0
    requires db == DataBlock(DecodeTitleFrame(Chunk(b, 0)),
                             DecodeRun(b, 1, IconCount(b[2]), DecodeFrame),
                             DecodeRun(b, 1 + IconCount(b[2]), FRAMES_PER_BLOCK - 1 - IconCount(b[2]), DecodeFrame))
    requires w == Write(db) && j < FRAMES_PER_BLOCK
    ensures Chunk(w, j) == Chunk(b, j)
  {
    var k := IconCount(b[2]);
    if j == 0 {
      EncodeDecodeTitleFrame(Chunk(b, 0));
    } else if j < 1 + k {
      assert Chunk(w, 1 + (j - 1)) == db.iconFrames[j - 1].data;
    } else {
      assert Chunk(w, 1 + k + (j - 1 - k)) == db.dataFrames[j - 1 - k].data;
    }
  }

  /** A block announcing two icon frames (display 0x12) holds 61 save
      frames. */
  lemma TwoIconFrames(b: BlockBytes)
    requires b[2] == 0x12
    ensures LoadDataBlock(b).Success?
    ensures |LoadDataBlock(b).value.iconFrames| == 2
    ensures |LoadDataBlock(b).value.dataFrames| == 61
  {
    LoadDataBlockSpec(b);
  }

  /** A save block that does not load fails with Incomplete. */
  lemma LoadDataBlockFails(b: BlockBytes)
    ensures LoadDataBlock(b).Failure? ==> LoadDataBlock(b).error == Incomplete
  {
    LoadDataBlockSpec(b);
  }

  /** `DataBlock::load_all_data_blocks`: every block in order, stopping at
      the first failure. */
  function LoadAllDataBlocks(blocks: seq<BlockBytes>): (r: Result<seq<DataBlock>>)
    ensures r.Success? <==> forall i | 0 <= i < |blocks| :: LoadDataBlock(blocks[i]).Success?
    ensures r.Success? ==> |r.value| == |blocks|
    ensures r.Success? ==> forall i | 0 <= i < |blocks| :: r.value[i] == LoadDataBlock(blocks[i]).value
    ensures r.Failure? ==> r.error == Incomplete
  {
    if |blocks| == 0 then Success([])
    else
      LoadDataBlockFails(blocks[0]);
      match LoadDataBlock(blocks[0])
      case Failure(e) => Failure(e)
      case Success(d) =>
        match LoadAllDataBlocks(blocks[1..])
        case Failure(e) => Failure(e)
        case Success(ds) => Success([d] + ds)
  }
}
