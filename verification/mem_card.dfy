/** The whole card image: the info block followed by 15 save blocks, read
    from and written to one 131072-byte sequence; and the title search. */
module MemCards {
  import opened Bytes
  import opened Errors
  import opened Records
  import InfoBlocks
  import DataBlocks
  import opened Loaders
  import opened Titles

  const DATA_BLOCKS: nat := 15

  datatype MemCard = MemCard(info: InfoBlocks.InfoBlock, data: seq<DataBlocks.DataBlock>)

  /** A card with the record counts of a real card. */
  predicate Shaped(mc: MemCard)
  {
    && InfoBlocks.Shaped(mc.info)
    && |mc.data| == DATA_BLOCKS
    && forall i | 0 <= i < DATA_BLOCKS :: DataBlocks.Shaped(mc.data[i])
  }

  /** Blocks 1..15 of a full image. */
  function SaveBlocks(image: seq<byte>): (bs: seq<BlockBytes>)
    requires CARD_SIZE <= |image|
    ensures |bs| == DATA_BLOCKS
    ensures forall i | 0 <= i < DATA_BLOCKS :: bs[i] == BlockAt(image, 1 + i)
  {
    seq(DATA_BLOCKS, i requires 0 <= i < DATA_BLOCKS => BlockAt(image, 1 + i))
  }

  /** `MemCard::open` over an image held in memory: block 0 is read and
      opened first, then the 15 save blocks are read and loaded in order.
      Bytes past the 16th block are never read. */
  function Open(image: seq<byte>): (r: Result<MemCard>)
    ensures |image| < BLOCK ==> r == Failure(UnexpectedEof)
    ensures r.Success? ==> CARD_SIZE <= |image| && Shaped(r.value)
  {
    if |image| < BLOCK then Failure(UnexpectedEof)
    else
      InfoBlocks.OpenSpec(BlockAt(image, 0));
      match InfoBlocks.Open(BlockAt(image, 0))
      case Failure(e) => Failure(e)
      case Success(info) => OpenSaves(image, info)
  }

  /** The stage of `MemCard::open` after the info block: read the rest of
      the card and load each save block. */
  function OpenSaves(image: seq<byte>, info: InfoBlocks.InfoBlock): (r: Result<MemCard>)
    ensures r.Success? ==> CARD_SIZE <= |image| && r.value.info == info
    ensures r.Success? ==> |r.value.data| == DATA_BLOCKS
    ensures r.Success? ==> forall i | 0 <= i < DATA_BLOCKS :: DataBlocks.Shaped(r.value.data[i])
  {
    if |image| < CARD_SIZE then Failure(UnexpectedEof)
    else
      LoadedShaped(SaveBlocks(image));
      match DataBlocks.LoadAllDataBlocks(SaveBlocks(image))
      case Failure(e) => Failure(e)
      case Success(data) => Success(MemCard(info, data))
  }

  /** A save block that loads has the shape of one. */
  lemma LoadedShaped(blocks: seq<BlockBytes>)
    ensures forall i | 0 <= i < |blocks| :: DataBlocks.LoadDataBlock(blocks[i]).Success? ==>
      DataBlocks.Shaped(DataBlocks.LoadDataBlock(blocks[i]).value)
  {
    forall i | 0 <= i < |blocks|
      ensures DataBlocks.LoadDataBlock(blocks[i]).Success? ==> DataBlocks.Shaped(DataBlocks.LoadDataBlock(blocks[i]).value)
    {
      DataBlocks.LoadDataBlockSpec(blocks[i]);
    }
  }

  /** Save block `i` of the image announces at least one icon frame. */
  predicate BlockLoads(image: seq<byte>, i: nat)
    requires BLOCK * (i + 1) <= |image|
  {
    IconCount(image[BLOCK * i + 2]) != 0
  }

  /** Every save block of a full image announces an icon frame. */
  predicate SaveBlocksLoad(image: seq<byte>)
    requires CARD_SIZE <= |image|
  {
    forall i | 1 <= i < CARD_BLOCKS :: BlockLoads(image, i)
  }

  /** One save block loads exactly when its display byte announces an icon,
      and then it has the shape of a save block. */
  lemma LoadSaveBlock(image: seq<byte>, i: nat)
    requires 1 <= i < CARD_BLOCKS && CARD_SIZE <= |image|
    ensures DataBlocks.LoadDataBlock(BlockAt(image, i)).Success? <==> BlockLoads(image, i)
  {
    var b := BlockAt(image, i);
    DataBlocks.LoadDataBlockSpec(b);
    assert b[2] == image[BLOCK * i + 2];
  }

  /** What opening an image gives, case by case: a short read before block 0
      is complete, the first bad checksum of block 0, a short read before
      block 15 is complete, a save block without icons, or the card. */
  lemma {:induction false} OpenSpec(image: seq<byte>)
    ensures |image| < BLOCK ==> Open(image) == Failure(UnexpectedEof)
    ensures BLOCK <= |image| && !FramesOk(BlockAt(image, 0), 0, FRAMES_PER_BLOCK) ==>
      Open(image) == Failure(BadChecksum)
    ensures BLOCK <= |image| < CARD_SIZE && FramesOk(BlockAt(image, 0), 0, FRAMES_PER_BLOCK) ==>
      Open(image) == Failure(UnexpectedEof)
    ensures CARD_SIZE <= |image| && FramesOk(BlockAt(image, 0), 0, FRAMES_PER_BLOCK) && !SaveBlocksLoad(image) ==>
      Open(image) == Failure(Incomplete)
    ensures Open(image).Success? <==>
      CARD_SIZE <= |image| && FramesOk(BlockAt(image, 0), 0, FRAMES_PER_BLOCK) && SaveBlocksLoad(image)
    ensures Open(image).Success? ==> Open(image).value.info == InfoBlocks.Layout(BlockAt(image, 0))
    ensures Open(image).Success? ==> forall i | 0 <= i < DATA_BLOCKS ::
      DataBlocks.LoadDataBlock(BlockAt(image, 1 + i)) == Success(Open(image).value.data[i])
  {
    if |image| < BLOCK {
      return;
    }
    var b := BlockAt(image, 0);
    InfoBlocks.OpenSpec(b);
    if FramesOk(b, 0, FRAMES_PER_BLOCK) {
      var info := InfoBlocks.Layout(b);
      assert Open(image) == OpenSaves(image, info);
      if CARD_SIZE <= |image| {
        OpenSavesSpec(image, info);
      }
    }
  }

  /** Loading the save blocks of a full image: it succeeds exactly when every
      block announces an icon, fails with Incomplete otherwise, and then holds
      what each block loads to. */
  lemma {:induction false} OpenSavesSpec(image: seq<byte>, info: InfoBlocks.InfoBlock)
    requires CARD_SIZE <= |image|
    ensures OpenSaves(image, info).Success? <==> SaveBlocksLoad(image)
    ensures !SaveBlocksLoad(image) ==> OpenSaves(image, info) == Failure(Incomplete)
    ensures OpenSaves(image, info).Success? ==> forall i | 0 <= i < DATA_BLOCKS ::
      DataBlocks.LoadDataBlock(BlockAt(image, 1 + i)) == Success(OpenSaves(image, info).value.data[i])
  {
    var blocks := SaveBlocks(image);
    forall i | 0 <= i < DATA_BLOCKS
      ensures DataBlocks.LoadDataBlock(blocks[i]).Success? <==> BlockLoads(image, 1 + i)
    {
      LoadSaveBlock(image, 1 + i);
    }
    if !SaveBlocksLoad(image) {
      var j :| 1 <= j < CARD_BLOCKS && !BlockLoads(image, j);
      assert !DataBlocks.LoadDataBlock(blocks[j - 1]).Success?;
    }
  }

  /** The bytes of a card image: the info block's bytes, then each save
      block's. */
  function WrittenBlocks(mc: MemCard): (ws: seq<seq<byte>>)
    ensures |ws| == 1 + |mc.data|
    ensures ws[0] == InfoBlocks.Write(mc.info)
    ensures forall i | 0 <= i < |mc.data| :: ws[1 + i] == DataBlocks.Write(mc.data[i])
  {
    [InfoBlocks.Write(mc.info)] + seq(|mc.data|, i requires 0 <= i < |mc.data| => DataBlocks.Write(mc.data[i]))
  }

  /** `MemCard::write` into memory: the info block, checksums re-stamped,
      then every save block verbatim. */
  function Write(mc: MemCard): seq<byte>
  {
    Concat(WrittenBlocks(mc))
  }

  /** A card of the right shape writes exactly 16 blocks: the info block's
      bytes, then each save block's. */
  lemma {:induction false} WriteBlocks(mc: MemCard)
    requires Shaped(mc)
    ensures |Write(mc)| == CARD_SIZE
    ensures BlockAt(Write(mc), 0) == InfoBlocks.Write(mc.info)
    ensures forall i | 0 <= i < DATA_BLOCKS :: BlockAt(Write(mc), 1 + i) == DataBlocks.Write(mc.data[i])
  {
    var ws := WrittenBlocks(mc);
    forall i | 0 <= i < |ws|
      ensures |ws[i]| == BLOCK
    {
      if i > 0 {
        assert ws[1 + (i - 1)] == DataBlocks.Write(mc.data[i - 1]);
      }
    }
    ConcatBlocks(ws);
    forall i | 0 <= i < DATA_BLOCKS
      ensures BlockAt(Write(mc), 1 + i) == DataBlocks.Write(mc.data[i])
    {
      assert ws[1 + i] == DataBlocks.Write(mc.data[i]);
    }
  }

  /** Save blocks written from `data` load back to `data`. */
  lemma LoadWrittenBlocks(image: seq<byte>, data: seq<DataBlocks.DataBlock>)
    requires |image| == CARD_SIZE && |data| == DATA_BLOCKS
    requires forall j | 0 <= j < DATA_BLOCKS :: DataBlocks.Shaped(data[j])
    requires forall j | 0 <= j < DATA_BLOCKS :: BlockAt(image, 1 + j) == DataBlocks.Write(data[j])
    ensures DataBlocks.LoadAllDataBlocks(SaveBlocks(image)) == Success(data)
  {
    var blocks := SaveBlocks(image);
    forall j | 0 <= j < DATA_BLOCKS
      ensures DataBlocks.LoadDataBlock(blocks[j]) == Success(data[j])
    {
      DataBlocks.LoadWrite(data[j]);
    }
    assert DataBlocks.LoadAllDataBlocks(blocks).value == data;
  }

  /** Opening a written card gives back the same card, with the info block's
      checksums recomputed from its fields; so edits to any field survive a
      write and carry valid checksums. */
  lemma {:induction false} OpenWrite(mc: MemCard)
    requires Shaped(mc)
    ensures Open(Write(mc)) == Success(MemCard(InfoBlocks.Restamp(mc.info), mc.data))
  {
    WriteBlocks(mc);
    InfoBlocks.OpenWrite(mc.info);
    LoadWrittenBlocks(Write(mc), mc.data);
  }

  /** What a successful open tells about the image it read. */
  lemma Opened(image: seq<byte>)
    requires Open(image).Success?
    ensures CARD_SIZE <= |image| && Shaped(Open(image).value)
    ensures InfoBlocks.Open(BlockAt(image, 0)) == Success(Open(image).value.info)
    ensures forall j | 0 <= j < DATA_BLOCKS ::
      DataBlocks.LoadDataBlock(BlockAt(image, 1 + j)) == Success(Open(image).value.data[j])
  {
    var blocks := SaveBlocks(image);
    assert forall j | 0 <= j < DATA_BLOCKS :: blocks[j] == BlockAt(image, 1 + j);
  }

  /** Block `i` of a full image is block `i` of its first 16 blocks. */
  lemma CardBlock(image: seq<byte>, i: nat)
    requires CARD_SIZE <= |image| && i < CARD_BLOCKS
    ensures BlockAt(image[..CARD_SIZE], i) == BlockAt(image, i)
  {
  }

  /** Save block `i` written back, in `w`, from what it loaded to. */
  lemma WriteOpenBlock(image: seq<byte>, mc: MemCard, w: seq<byte>, i: nat)
    requires CARD_SIZE <= |image| && |w| == CARD_SIZE && Shaped(mc) && 1 <= i < CARD_BLOCKS
    requires forall j | 0 <= j < DATA_BLOCKS :: DataBlocks.LoadDataBlock(BlockAt(image, 1 + j)) == Success(mc.data[j])
    requires forall j | 0 <= j < DATA_BLOCKS :: BlockAt(w, 1 + j) == DataBlocks.Write(mc.data[j])
    ensures BlockAt(w, i) == BlockAt(image, i)
  {
    var j := i - 1;
    assert DataBlocks.LoadDataBlock(BlockAt(image, 1 + j)) == Success(mc.data[j]);
    DataBlocks.WriteLoad(BlockAt(image, i));
  }

  /** Writing a card just opened reproduces the 16 blocks it was read
      from. */
  lemma {:induction false} WriteOpen(image: seq<byte>)
    requires Open(image).Success?
    ensures Write(Open(image).value) == image[..CARD_SIZE]
  {
    Opened(image);
    var mc := Open(image).value;
    WriteBlocks(mc);
    InfoBlocks.WriteOpen(BlockAt(image, 0));
    SameBlocks(image, mc, Write(mc));
  }

  /** A buffer holding the written blocks of what the image loaded to is
      the image's first 16 blocks. */
  lemma {:induction false} SameBlocks(image: seq<byte>, mc: MemCard, w: seq<byte>)
    requires CARD_SIZE <= |image| && |w| == CARD_SIZE && Shaped(mc)
    requires BlockAt(w, 0) == BlockAt(image, 0)
    requires forall j | 0 <= j < DATA_BLOCKS :: DataBlocks.LoadDataBlock(BlockAt(image, 1 + j)) == Success(mc.data[j])
    requires forall j | 0 <= j < DATA_BLOCKS :: BlockAt(w, 1 + j) == DataBlocks.Write(mc.data[j])
    ensures w == image[..CARD_SIZE]
  {
    forall i | 0 <= i < CARD_BLOCKS
      ensures BlockAt(w, i) == BlockAt(image[..CARD_SIZE], i)
    {
      CardBlock(image, i);
      if i > 0 {
        WriteOpenBlock(image, mc, w, i);
      }
    }
    BlocksEqual(w, image[..CARD_SIZE], CARD_BLOCKS);
  }

  /** Bytes past the 16th block make no difference. */
  lemma OpenIgnoresTail(image: seq<byte>)
    requires CARD_SIZE <= |image|
    ensures Open(image) == Open(image[..CARD_SIZE])
  {
    var whole := image[..CARD_SIZE];
    assert BlockAt(whole, 0) == BlockAt(image, 0);
    forall i | 0 <= i < DATA_BLOCKS
      ensures SaveBlocks(whole)[i] == SaveBlocks(image)[i]
    {
      assert BlockAt(whole, 1 + i) == BlockAt(image, 1 + i);
    }
    assert SaveBlocks(whole) == SaveBlocks(image);
  }

  /** Replacing the info block of an opened card with any block of the same
      shape, writing and opening again gives that block back, checksums
      recomputed, beside the same save blocks. */
  lemma EditInfo(image: seq<byte>, info: InfoBlocks.InfoBlock)
    requires Open(image).Success? && InfoBlocks.Shaped(info)
    ensures Open(Write(Open(image).value.(info := info))) ==
      Success(MemCard(InfoBlocks.Restamp(info), Open(image).value.data))
  {
    Opened(image);
    OpenWrite(Open(image).value.(info := info));
  }

  /** The three edits of the source's modify test, each written out and
      opened again: a new header id, a new file size in directory entry 0,
      a new broken-frame number in entry 0. Each edit is read back. */
  lemma EditHeaderId(image: seq<byte>, id: Bytes2)
    requires Open(image).Success?
    ensures var mc := Open(image).value;
      var r := Open(Write(mc.(info := mc.info.(header := mc.info.header.(id := id)))));
      r.Success? && r.value.info.header.id == id
  {
    var mc := Open(image).value;
    Opened(image);
    EditInfo(image, mc.info.(header := mc.info.header.(id := id)));
  }

  lemma EditFilesize(image: seq<byte>, size: u32)
    requires Open(image).Success?
    ensures var mc := Open(image).value;
      var dirs := mc.info.dirFrames;
      var r := Open(Write(mc.(info := mc.info.(dirFrames := dirs[0 := dirs[0].(filesize := size)]))));
      r.Success? && r.value.info.dirFrames[0].filesize == size
  {
    var mc := Open(image).value;
    Opened(image);
    var dirs := mc.info.dirFrames;
    EditInfo(image, mc.info.(dirFrames := dirs[0 := dirs[0].(filesize := size)]));
  }

  lemma EditBrokenFrame(image: seq<byte>, frame: u32)
    requires Open(image).Success?
    ensures var mc := Open(image).value;
      var broken := mc.info.brokenFrames;
      var r := Open(Write(mc.(info := mc.info.(brokenFrames := broken[0 := broken[0].(brokenFrame := frame)]))));
      r.Success? && r.value.info.brokenFrames[0].brokenFrame == frame
  {
    var mc := Open(image).value;
    Opened(image);
    var broken := mc.info.brokenFrames;
    EditInfo(image, mc.info.(brokenFrames := broken[0 := broken[0].(brokenFrame := frame)]));
  }

  // Title search.

  /** ASCII lower-casing of one character; others are left alone. */
  function LowerChar(c: char): char
  {
    if 'A' <= c <= 'Z' then (c as int + 32) as char else c
  }

  /** `make_ascii_lowercase`. */
  function ToLower(s: string): (r: string)
    ensures |r| == |s|
  {
    seq(|s|, i requires 0 <= i < |s| => LowerChar(s[i]))
  }

  lemma ToLowerIdempotent(s: string)
    ensures ToLower(ToLower(s)) == ToLower(s)
  {
  }

  /** `needle` occurs in `haystack` starting at index `i`. */
  predicate OccursAt(haystack: string, needle: string, i: nat)
  {
    i + |needle| <= |haystack| && haystack[i..i + |needle|] == needle
  }

  /** Substring search: try each start position in turn. */
  function Contains(haystack: string, needle: string): (r: bool)
    ensures r <==> exists i: nat :: OccursAt(haystack, needle, i)
    decreases |haystack|
  {
    if needle <= haystack then
      assert OccursAt(haystack, needle, 0);
      true
    else if |haystack| == 0 then
      false
    else
      var rest := haystack[1..];
      assert forall i: nat :: OccursAt(rest, needle, i) <==> OccursAt(haystack, needle, i + 1) by {
        forall i: nat
          ensures OccursAt(rest, needle, i) <==> OccursAt(haystack, needle, i + 1)
        {
          if i + |needle| <= |rest| {
            assert rest[i..i + |needle|] == haystack[i + 1..i + 1 + |needle|];
          }
        }
      }
      assert !OccursAt(haystack, needle, 0);
      assert (exists i: nat :: OccursAt(haystack, needle, i)) ==> exists i: nat :: OccursAt(rest, needle, i) by {
        if exists i: nat :: OccursAt(haystack, needle, i) {
          var i: nat :| OccursAt(haystack, needle, i);
          assert i > 0;
          assert OccursAt(rest, needle, i - 1);
        }
      }
      Contains(rest, needle)
  }

  /** A save block matches a lower-cased needle when its lower-cased title
      contains it. */
  predicate Matches(db: DataBlocks.DataBlock, needle: string)
  {
    Contains(ToLower(DecodeTitle(db.titleFrame)), needle)
  }

  /** The loop of `find_game`: keep the matching blocks, in order. */
  function Search(blocks: seq<DataBlocks.DataBlock>, needle: string): (r: seq<DataBlocks.DataBlock>)
    ensures |r| <= |blocks|
    ensures forall b | b in r :: b in blocks && Matches(b, needle)
    ensures forall b | b in blocks && Matches(b, needle) :: b in r
  {
    if |blocks| == 0 then []
    else
      var rest := Search(blocks[1..], needle);
      assert forall b | b in blocks :: b == blocks[0] || b in blocks[1..];
      if Matches(blocks[0], needle) then [blocks[0]] + rest else rest
  }

  /** Searching a concatenation searches each part, keeping the order. */
  lemma {:induction false} SearchConcat(a: seq<DataBlocks.DataBlock>, b: seq<DataBlocks.DataBlock>, needle: string)
    ensures Search(a + b, needle) == Search(a, needle) + Search(b, needle)
  {
    if |a| > 0 {
      assert (a + b)[1..] == a[1..] + b;
      SearchConcat(a[1..], b, needle);
    } else {
      assert a + b == b;
    }
  }

  /** `MemCard::find_game`: the save blocks whose title, ASCII lower-cased,
      contains the ASCII lower-cased search term, in card order. */
  function FindGame(mc: MemCard, search: string): (r: seq<DataBlocks.DataBlock>)
    ensures |r| <= |mc.data|
    ensures forall b :: b in r <==> b in mc.data && Contains(ToLower(DecodeTitle(b.titleFrame)), ToLower(search))
  {
    Search(mc.data, ToLower(search))
  }

  /** The search term's case does not matter. */
  lemma FindGameIgnoresCase(mc: MemCard, search: string)
    ensures FindGame(mc, search) == FindGame(mc, ToLower(search))
  {
    ToLowerIdempotent(search);
  }

  lemma FindGameWild(mc: MemCard)
    ensures FindGame(mc, "WILD") == FindGame(mc, "wild")
  {
    assert ToLower("WILD") == "wild";
    assert ToLower("wild") == "wild";
  }

  /** An empty search term finds every save block. */
  lemma {:induction false} SearchEmpty(blocks: seq<DataBlocks.DataBlock>)
    ensures Search(blocks, "") == blocks
  {
    if |blocks| > 0 {
      assert OccursAt(ToLower(DecodeTitle(blocks[0].titleFrame)), "", 0);
      SearchEmpty(blocks[1..]);
    }
  }

  lemma FindGameEmpty(mc: MemCard)
    ensures FindGame(mc, "") == mc.data
  {
    SearchEmpty(mc.data);
  }

  /** A save titled "Wild Arms" is found by "WILD" and by "wild". */
  lemma FindWildArms(mc: MemCard, db: DataBlocks.DataBlock)
    requires db in mc.data
    requires DecodeTitle(db.titleFrame) == "Wild Arms"
    ensures db in FindGame(mc, "WILD") && db in FindGame(mc, "wild")
  {
    FindGameWild(mc);
    LowerWild();
    WildArmsHasWild();
  }

  lemma LowerWild()
    ensures ToLower("wild") == "wild"
  {
    var t := ToLower("wild");
    assert t[0] == 'w' && t[1] == 'i' && t[2] == 'l' && t[3] == 'd';
  }

  lemma WildArmsHasWild()
    ensures Contains(ToLower("Wild Arms"), "wild")
  {
    var t := ToLower("Wild Arms");
    assert t[0] == 'w' && t[1] == 'i' && t[2] == 'l' && t[3] == 'd';
    assert t[0..4] == "wild";
    assert OccursAt(t, "wild", 0);
  }
}
