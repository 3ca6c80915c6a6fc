# psxmem in Dafny

A model of the byte-level engine of `psxmem`, a Rust library that reads,
searches and rewrites PlayStation memory-card images. A card image is 16
blocks of 8192 bytes. Each block is 64 frames of 128 bytes.

- Block 0, the info block, holds these frames, each ending in an XOR checksum:
  - the card header;
  - 15 directory entries;
  - 20 bad-block entries;
  - 27 unused frames;
  - a write-test header.
- Blocks 1 to 15 are save blocks, with no checksums. Each holds:
  - a title frame (Shift_JIS title, icon count, 16-colour palette);
  - 1 to 3 icon frames;
  - the save data frames.

Every byte buffer is a `seq<byte>` (`byte = bv8`). Every record is an immutable
datatype with explicit little-endian decode and encode functions. Opening and
writing a card are pure functions over one byte sequence.

Modules, in dependency order:

- `Errors` (`errors.dfy`): the error kinds and a `Result` type.
- `Bytes` (`bytes.dfy`): sizes, fixed-length byte types, little-endian u16/u32, and frame/block slicing.
- `Checksums` (`checksum.dfy`): `calc_checksum`, `validate_checksum`, `update_checksum`.
- `Records` (`records.dfy`): the five 128-byte records and their codecs.
- `Loaders` (`loaders.dfy`): the checksummed `load(input, n)` loops.
- `InfoBlocks` (`info_block.dfy`): `InfoBlock::open` and `InfoBlock::write`.
- `DataBlocks` (`data_block.dfy`): `read_n_frames`, `load_data_block`, `load_all_data_blocks`, `DataBlock::write`.
- `Titles` (`title.dfy`): `decode_title` and `get_icon_display`.
- `Icons` (`icon.dfy`): `translate_bmp_to_rgba`.
- `Directory` (`directory.dfy`): `get_alloc_state`, and the region and license part of `get_region_info`.
- `MemCards` (`mem_card.dfy`): `MemCard::open`, `MemCard::write` and `find_game`.

Errors are collapsed into four kinds:

- `BadChecksum`: a stored checksum does not match.
- `Incomplete`: the record decoder ran out of input.
- `UnexpectedEof`: the card file is shorter than the blocks to be read.
- `IndexOutOfBounds`: `validate_checksum` or `update_checksum` was given a slice shorter than 128 bytes. In Rust this is a panic; here it is an error result.

The loaders of the source push one record before they compare the count with
`n`. The model keeps that order. So a count of 0 never stops the loop normally:

- The checked loaders read on until a frame fails its checksum (`BadChecksum`) or the input runs out (`IndexOutOfBounds`, an index panic in the source).
- `read_n_frames` does the same, failing with `Incomplete`.
- A save block whose display byte has `display & 3 == 0` therefore fails to load.

## Model

| member | source | states |
|---|---|---|
| Checksums.CalcChecksum | src/lib.rs:600-606 | The loop returns the XOR of the first 127 bytes, or of all bytes when there are fewer. For a slice of at least 128 bytes this is the XOR of bytes 0..126. |
| Checksums.ChecksumIgnoresByte127 | src/lib.rs:600-606 | Changing byte 127 never changes the computed checksum. |
| Checksums.ValidateChecksum | src/lib.rs:609-616 | Succeeds exactly when the slice has at least 128 bytes and byte 127 equals the XOR of bytes 0..126. Fails with BadChecksum on a mismatch, and with IndexOutOfBounds (a panic in the source) on a shorter slice. |
| Checksums.OtherChecksumFails | src/lib.rs:609-616 | In a valid frame, setting byte 127 to any other value makes validation fail with BadChecksum. |
| Checksums.ChecksumOkIffXorZero | src/lib.rs:609-616 | A frame validates exactly when the XOR of all 128 of its bytes is 0. |
| Checksums.UpdateChecksum | src/lib.rs:619-626 | Succeeds exactly when the slice has at least 128 bytes. The result then validates, has the same length, and equals the input everywhere except byte 127. |
| Checksums.Stamp | src/lib.rs:619-626 | On a 128-byte frame, update_checksum always succeeds, and this is its result. |
| Checksums.StampValid | src/lib.rs:619-626 | Re-stamping a frame that already validates leaves it unchanged. |
| Bytes.EncodeU16 | src/lib.rs:373-382 | Little-endian u16 encoding: low byte first, and it decodes back to the value. |
| Bytes.EncodeDecodeU16 | src/lib.rs:373-382 | Every 2-byte sequence is the encoding of the value it decodes to. |
| Bytes.EncodeU32 | src/lib.rs:41-50 | Little-endian u32 encoding: low byte first, and it decodes back to the value. |
| Bytes.EncodeDecodeU32 | src/lib.rs:41-50 | Every 4-byte sequence is the encoding of the value it decodes to. |
| Records.EncodeHeader | src/lib.rs:20-26 | Encoding a header gives 128 bytes that decode back to it, with the checksum field in byte 127. |
| Records.EncodeDecodeHeader | src/lib.rs:20-26 | Every 128-byte frame is the encoding of the header it decodes to. |
| Records.EncodeDirectoryFrame | src/lib.rs:41-50 | A directory entry's state, file size, next block, name, padding and checksum encode to 128 bytes that decode back to it. The checksum field is byte 127. |
| Records.EncodeDecodeDirectoryFrame | src/lib.rs:41-50 | Every frame is the encoding of the directory entry it decodes to. |
| Records.EncodeBrokenFrame | src/lib.rs:143-149 | A bad-block entry encodes to 128 bytes that decode back to it, with the checksum field in byte 127. |
| Records.EncodeDecodeBrokenFrame | src/lib.rs:143-149 | Every frame is the encoding of the bad-block entry it decodes to. |
| Records.EncodePalette | src/lib.rs:373-382 | The 16 palette entries encode as 32 little-endian bytes that decode back to them. |
| Records.EncodeDecodePalette | src/lib.rs:373-382 | Every 32-byte sequence is the encoding of the palette it decodes to. |
| Records.EncodeTitleFrame | src/lib.rs:373-382 | A title frame encodes to 128 bytes that decode back to it. The display byte is byte 2. |
| Records.EncodeDecodeTitleFrame | src/lib.rs:373-382 | Every frame is the encoding of the title frame it decodes to. |
| Records.IconCount | src/lib.rs:235 | The number of icon frames a display byte announces is at most 3. |
| Records.StampEncodeHeader | src/lib.rs:499-501 | Re-stamping an encoded header is the same as encoding it with its checksum field replaced by the computed checksum. |
| Records.StampEncodeDirectoryFrame | src/lib.rs:503-506 | The same for a directory entry. |
| Records.StampEncodeBrokenFrame | src/lib.rs:508-511 | The same for a bad-block entry. |
| Loaders.LoadChecked | src/lib.rs:75-90 | The shared validate-then-decode loop. On success it produced exactly the missing number of records, and the input held that many frames. |
| Loaders.LoadCheckedSpec | src/lib.rs:75-90 | On success the records are the consecutive 128-byte frames of the input, and each validates. The loop succeeds exactly when enough frames are present and all validate. With enough input, the only error is BadChecksum. Starting at or past the count (n = 0) always fails. |
| Loaders.LoadCheckedIgnoresTail | src/lib.rs:75-90 | Nothing past the n-th frame is inspected. |
| Loaders.LoadRecords | src/lib.rs:184-199 | For n ≥ 1 and enough input, succeeds exactly when all n frames validate, and returns them decoded in order. Otherwise fails with BadChecksum. For n = 0 it always fails. |
| Loaders.LoadFrames | src/lib.rs:184-199 | `Frame::load`: the properties of LoadRecords, with the frames kept raw. |
| Loaders.LoadDirectoryFrames | src/lib.rs:75-90 | `DirectoryFrame::load`: the properties of LoadRecords, with the frames decoded as directory entries. |
| Loaders.LoadBrokenFrames | src/lib.rs:152-167 | `BrokenFrame::load`: the properties of LoadRecords, with the frames decoded as bad-block entries. |
| Loaders.LoadRecordsIgnoresTail | src/lib.rs:184-199 | Loading n records reads only the first n frames. |
| Loaders.LoadRecordsAt | src/lib.rs:184-199 | Loading from frame k of a buffer succeeds exactly when frames k..k+n-1 validate, and yields those frames decoded. |
| InfoBlocks.Layout | src/lib.rs:470-496 | The decoded info block has 15 directory entries, 20 bad-block entries and 27 unused frames. |
| InfoBlocks.LayoutOffsets | src/lib.rs:476-487 | The byte offsets read: header at 0, directory at 128, bad blocks at 2048, unused frames at 4608, write-test header at 8064. |
| InfoBlocks.OpenSpec | src/lib.rs:470-496 | Opening block 0 succeeds exactly when all 64 frame checksums are valid, and then yields the fixed layout. Otherwise it fails with BadChecksum. |
| InfoBlocks.Write | src/lib.rs:499-522 | The output is one frame per record. For a block of the usual shape it is exactly 8192 bytes, and every 128-byte frame in it has a valid checksum. |
| InfoBlocks.OpenWrite | src/lib.rs:470-522 | After any edit of the fields, opening the written block succeeds and gives back the edited block with recomputed checksums. |
| InfoBlocks.WriteOpen | src/lib.rs:470-522 | Writing an opened block reproduces the original 8192 bytes. |
| DataBlocks.ReadFrames | src/lib.rs:261-273 | The push-then-test loop of read_n_frames. On success it read exactly the missing frames. Its only error is Incomplete. |
| DataBlocks.ReadFramesSpec | src/lib.rs:261-273 | The loop succeeds whenever enough input remains, and then returns the consecutive frames. |
| DataBlocks.ReadNFrames | src/lib.rs:261-273 | Succeeds exactly when 1 ≤ n and n frames fit in the input, and then returns those n frames in order. Otherwise fails with Incomplete, which includes n = 0. No checksum is checked. |
| DataBlocks.ReadNFramesAt | src/lib.rs:261-273 | Reading n frames from frame k of a buffer yields frames k..k+n-1. |
| DataBlocks.LoadDataBlockSpec | src/lib.rs:230-249 | With k = display & 3: for k = 0 the load fails with Incomplete. Otherwise the result is the title frame, frames 1..k as icons and the remaining 63 − k frames as data. |
| DataBlocks.LoadDataBlockFails | src/lib.rs:230-249 | A save block that does not load always fails with Incomplete. |
| DataBlocks.TwoIconFrames | src/lib.rs:230-249 | A display byte of 0x12 gives 2 icon frames and 61 data frames. |
| DataBlocks.Write | src/lib.rs:276-291 | The output is the title frame, then the icons, then the data, verbatim, with no checksum change. For a block of the usual shape it is 8192 bytes. |
| DataBlocks.LoadWrite | src/lib.rs:230-291 | A save block of the usual shape, written and loaded, is unchanged. |
| DataBlocks.WriteLoad | src/lib.rs:230-291 | Writing a loaded save block reproduces the original 8192 bytes. |
| DataBlocks.LoadAllDataBlocks | src/lib.rs:252-259 | Succeeds exactly when every block loads, and then gives each block's result in order. The only error is Incomplete. |
| Titles.PairChar | src/lib.rs:392-412 | A byte pair gives at most one character: a space, a digit or an ASCII letter. The pair is the Shift_JIS code of that character's full-width form. |
| Titles.Row3Char | src/lib.rs:399-408 | After lead byte 0x82, a trail byte gives at most one character, a digit or an ASCII letter. The character's own full-width code is exactly 0x82 followed by that trail byte. |
| Titles.PairCharEncodeChar | src/lib.rs:394-408 | Every space, digit and ASCII letter decodes back from its full-width Shift_JIS pair. |
| Titles.DecodeFrom | src/lib.rs:391-417 | Decoding from pair j yields at most 32 − j characters. |
| Titles.DecodeTitle | src/lib.rs:386-420 | The title has at most 32 characters, each a space, '0'-'9', 'A'-'Z' or 'a'-'z'. |
| Titles.DecodeEncodeTitle | src/lib.rs:386-420 | Any string of at most 32 such characters, written as full-width pairs padded with zeros, decodes back to itself. |
| Titles.DecodeTitleAB | src/lib.rs:399-410 | Title bytes 82 60 82 61 00 decode to "AB". |
| Titles.DecodeTitleEmpty | src/lib.rs:410 | A title that starts with a 0x00 lead byte decodes to "". |
| Titles.DecodeTitleStopsAtZero | src/lib.rs:390-417 | Decoding stops at the first 0x00 lead byte. Two titles with the same pairs before a 0x00 lead at pair z decode alike, whatever follows it. Skipped (unknown) pairs before it are allowed. |
| Titles.GetIconDisplay | src/lib.rs:422-429 | The display byte is known exactly for 0x11, 0x12 and 0x13. Then the announced frame count equals display & 3, and the high nibble is 1. |
| Icons.PixelIndexNibbles | src/lib.rs:340-343 | Pixel 2i uses the low nibble of byte i, and pixel 2i+1 the high nibble. |
| Icons.Channel | src/lib.rs:343-353 | Each colour channel is its 5-bit palette field times 8, so at most 248. Alpha is 255. |
| Icons.ChannelIgnoresBit15 | src/lib.rs:343-353 | Bit 15 of a palette entry does not affect any channel. |
| Icons.TranslateBmpToRgba | src/lib.rs:336-358 | The output is always 1024 bytes. Byte 4p + c is channel c of the palette entry selected by pixel p. |
| Icons.RgbaChannels | src/lib.rs:347-353 | Every output pixel is opaque. Every colour byte is a multiple of 8 and at most 248. |
| Directory.GetAllocState | src/lib.rs:92-103 | The state is unknown exactly when the code is not one of the seven block-allocation codes. A known state maps back to its code. |
| Directory.GetAllocStateOfCode | src/lib.rs:92-103 | Each of the seven codes classifies as its own state. |
| Directory.GetRegionInfo | src/lib.rs:105-117 | The region is Japan, America or Europe exactly when filename byte 1 is 'I', 'A' or 'E'. The license is Sony or Licensed exactly when byte 3 is 'C' or 'L'. |
| MemCards.Open | src/lib.rs:541-564 | An image shorter than one block fails with UnexpectedEof. A successful open has read 16 full blocks and gives a card of the usual shape. |
| MemCards.OpenSaves | src/lib.rs:549-563 | After the info block: a successful read has 16 full blocks, keeps the info block it was given, and holds 15 save blocks of the usual shape. |
| MemCards.OpenSavesSpec | src/lib.rs:549-563 | With 16 full blocks, loading succeeds exactly when every save block announces an icon frame. Otherwise it fails with Incomplete. Each save block is what its 8192 bytes load to. |
| MemCards.OpenSpec | src/lib.rs:541-564 | The outcome case by case: UnexpectedEof before block 0 is complete; BadChecksum when block 0 has a bad frame; UnexpectedEof before block 15 is complete; Incomplete when a save block announces no icon. Otherwise success, with the info layout of block 0 and each save block loaded in order. |
| MemCards.OpenIgnoresTail | src/lib.rs:541-564 | Bytes after the 16th block are never read. |
| MemCards.WriteBlocks | src/lib.rs:567-576 | A card of the usual shape writes exactly 131072 bytes: the info block's bytes, then each save block's. |
| MemCards.OpenWrite | src/lib.rs:541-576 | Opening a written card gives back the same card, with the info block's checksums recomputed. |
| MemCards.WriteOpen | src/lib.rs:541-576 | Writing an opened card reproduces the 16 blocks it was read from. |
| MemCards.EditInfo | src/lib.rs:656-669 | After any same-shape replacement of an opened card's info block, the card writes, re-opens, and gives that block back with every checksum recomputed (`InfoBlocks.Restamp`), beside the same save blocks. |
| MemCards.EditHeaderId | src/lib.rs:658-662 | A new header id survives a write and re-open. |
| MemCards.EditFilesize | src/lib.rs:662-666 | A new file size in directory entry 0 survives a write and re-open. |
| MemCards.EditBrokenFrame | src/lib.rs:666-668 | A new broken-frame number in bad-block entry 0 survives a write and re-open. |
| MemCards.ToLowerIdempotent | src/lib.rs:582-583 | ASCII lower-casing twice is the same as once. |
| MemCards.Contains | src/lib.rs:590 | The substring test is true exactly when the needle occurs at some position of the haystack. |
| MemCards.Search | src/lib.rs:586-593 | The result keeps exactly the matching blocks, and is no longer than the input. |
| MemCards.SearchConcat | src/lib.rs:586-593 | Searching a concatenation gives the results for each part in turn, so the order of the card is kept. |
| MemCards.FindGame | src/lib.rs:580-596 | A block is found exactly when it is on the card and its ASCII-lower-cased title contains the ASCII-lower-cased search term. |
| MemCards.FindGameIgnoresCase | src/lib.rs:580-596 | The search term's case does not change the result. |
| MemCards.FindGameWild | src/lib.rs:648 | Searching "WILD" finds the same blocks as "wild". |
| MemCards.FindGameEmpty | src/lib.rs:580-596 | An empty search term returns every save block, in order. |
| MemCards.FindWildArms | src/lib.rs:648 | A block titled "Wild Arms" is found by "WILD" and by "wild". |

## Left out

- File handles: `File::open`, `read_exact` and `File::create` are replaced by one in-memory byte sequence. A short read becomes `UnexpectedEof`. Write errors from `write_all` cannot happen in memory.
- `DataBlock::export_all_images` and `export_gif`: PNG and GIF encoding goes through external crates and creates files. Only the pixel translation they share is modelled.
- The `fmt::Display` implementations: presentation only.
- The `name` field of `get_region_info`: it is a UTF-8 decoding of `filename[12..]` whose failure path is in the standard library. Only the region and license bytes are modelled. For the same reason, `Directory.GetRegionInfo` returns no error.
- The deku derive machinery: it is replaced by explicit offset codecs. The `MCError` variants of `src/errors.rs` are collapsed into the four error kinds above. Deku encoding of a fixed-size record cannot fail.
- `MemCards.FindGame` and `Titles.DecodeTitle` return plain values, not a `Result`. The source's `decode_title` never returns an error, so `find_game` never fails.
- `MemCards.Write` has a contract only through `WriteBlocks`. `Write` is defined for cards of any shape, but its length is stated only for the usual shape.
- An icon count of 0 could be read as "no icon frames", but the code's loop does not stop there. The model follows the code: such a block fails to load with `Incomplete`.
- A corrupt info block is reported through the first failing checksum, which is always `BadChecksum`. No separate "corrupt block" error exists in the code.
