/** The save title decoder and the icon display classifier. Titles are
    stored as two-byte Shift_JIS codes (JIS X 0208 row 1 cell 1 and row 3);
    only the full-width space, digits and Latin letters are understood. */
module Titles {
  import opened Bytes
  import opened Records

  /** The characters the decoder can produce. */
  predicate Decodable(c: char)
  {
    c == ' ' || '0' <= c <= '9' || 'A' <= c <= 'Z' || 'a' <= c <= 'z'
  }

  /** The two-byte Shift_JIS code of the full-width form of a decodable
      character (the decoder emits its ASCII form): 0x8140 for the
      ideographic space, 0x824F..0x8258 for the digits, 0x8260..0x8279 for
      A..Z and 0x8281..0x829A for a..z. */
  function EncodeChar(c: char): (b: seq<byte>)
    requires Decodable(c)
    ensures |b| == 2 && b[0] != 0
  {
    if c == ' ' then [0x81, 0x40]
    else if c <= 'Z' then [0x82, ByteOf(c as int + 0x1F)]
    else [0x82, ByteOf(c as int + 0x20)]
  }

  /** The text one code pair stands for: one character when the pair is
      understood, nothing otherwise. */
  function PairChar(lead: byte, trail: byte): (r: string)
    ensures |r| <= 1
    ensures |r| == 1 ==> Decodable(r[0]) && EncodeChar(r[0]) == [lead, trail]
  {
    if lead == 0x81 then
      if trail == 0x40 then " " else ""
    else if lead == 0x82 then Row3Char(trail)
    else ""
  }

  /** The character of code 0x82 `trail`: a digit for 0x4F..0x58, an upper
      case letter for 0x60..0x79, a lower case one for 0x81..0x9A. */
  function Row3Char(trail: byte): (r: string)
    ensures |r| <= 1
    ensures |r| == 1 ==> Decodable(r[0]) && EncodeChar(r[0]) == [0x82, trail]
  {
    if (0x4F <= trail <= 0x58) || (0x60 <= trail <= 0x79) then
      ByteOfByte(trail);
      [(trail as int - 0x1F) as char]
    else if 0x81 <= trail <= 0x9A then
      ByteOfByte(trail);
      [(trail as int - 0x20) as char]
    else ""
  }

  /** Every decodable character is decoded from its own code. */
  lemma PairCharEncodeChar(c: char)
    requires Decodable(c)
    ensures PairChar(EncodeChar(c)[0], EncodeChar(c)[1]) == [c]
  {
  }

  /** The decoding loop from pair `j` on: stop at a 0x00 lead byte or after
      the 32nd pair; an unknown pair produces nothing but is still skipped. */
  function DecodeFrom(t: Bytes64, j: nat): (r: string)
    requires j <= 32
    ensures |r| <= 32 - j
    decreases 32 - j
  {
    if j == 32 || t[2 * j] == 0 then ""
    else PairChar(t[2 * j], t[2 * j + 1]) + DecodeFrom(t, j + 1)
  }

  /** Every character of `s` is one the decoder can produce. */
  predicate AllDecodable(s: string)
  {
    forall i | 0 <= i < |s| :: Decodable(s[i])
  }

  lemma AllDecodableConcat(a: string, b: string)
    requires AllDecodable(a) && AllDecodable(b)
    ensures AllDecodable(a + b)
  {
    forall i | 0 <= i < |a + b|
      ensures Decodable((a + b)[i])
    {
      if i >= |a| {
        assert (a + b)[i] == b[i - |a|];
      }
    }
  }

  lemma {:induction false} DecodeFromDecodable(t: Bytes64, j: nat)
    requires j <= 32
    ensures AllDecodable(DecodeFrom(t, j))
    decreases 32 - j
  {
    if j < 32 && t[2 * j] != 0 {
      DecodeFromDecodable(t, j + 1);
      DecodableStep(t, j);
    }
  }

  /** One pair put in front of decodable text keeps it decodable. */
  lemma DecodableStep(t: Bytes64, j: nat)
    requires j < 32 && t[2 * j] != 0 && AllDecodable(DecodeFrom(t, j + 1))
    ensures AllDecodable(DecodeFrom(t, j))
  {
    AllDecodableConcat(PairChar(t[2 * j], t[2 * j + 1]), DecodeFrom(t, j + 1));
  }

  /** `TitleFrame::decode_title`: at most 32 characters, each a space, a
      digit or a Latin letter. */
  function DecodeTitle(tf: TitleFrame): (r: string)
    ensures |r| <= 32
    ensures forall i | 0 <= i < |r| :: Decodable(r[i])
  {
    DecodeFromDecodable(tf.title, 0);
    DecodeFrom(tf.title, 0)
  }

  /** The title field holding `s` in full-width form, zero-padded. */
  function EncodeTitle(s: string): (t: Bytes64)
    requires |s| <= 32
    requires forall i | 0 <= i < |s| :: Decodable(s[i])
    ensures forall j | 0 <= j < |s| :: t[2 * j] == EncodeChar(s[j])[0] && t[2 * j + 1] == EncodeChar(s[j])[1]
    ensures forall k | 2 * |s| <= k < 64 :: t[k] == 0
  {
    var t := seq(64, k requires 0 <= k < 64 => if k < 2 * |s| then EncodeChar(s[k / 2])[k % 2] else 0);
    assert forall j | 0 <= j < |s| :: t[2 * j] == EncodeChar(s[j])[0] && t[2 * j + 1] == EncodeChar(s[j])[1] by {
      forall j | 0 <= j < |s|
        ensures t[2 * j] == EncodeChar(s[j])[0] && t[2 * j + 1] == EncodeChar(s[j])[1]
      {
        assert (2 * j) / 2 == j && (2 * j) % 2 == 0;
        assert (2 * j + 1) / 2 == j && (2 * j + 1) % 2 == 1;
      }
    }
    t
  }

  /** Decoding from pair `j` of a title whose pairs `j..|s| - 1` stand for
      the characters of `s`, followed by a terminator when there is room,
      gives the rest of `s`. */
  lemma {:induction false} DecodeFromPairs(t: Bytes64, s: string, j: nat)
    requires |s| <= 32 && j <= |s|
    requires forall i | j <= i < |s| :: t[2 * i] != 0 && PairChar(t[2 * i], t[2 * i + 1]) == [s[i]]
    requires |s| < 32 ==> t[2 * |s|] == 0
    ensures DecodeFrom(t, j) == s[j..]
    decreases |s| - j
  {
    if j < |s| {
      var c := PairChar(t[2 * j], t[2 * j + 1]);
      assert DecodeFrom(t, j) == c + DecodeFrom(t, j + 1);
      DecodeFromPairs(t, s, j + 1);
      SliceCons(s, j);
    } else {
      assert DecodeFrom(t, j) == "";
    }
  }

  lemma SliceCons(s: string, j: nat)
    requires j < |s|
    ensures s[j..] == [s[j]] + s[j + 1..]
  {
  }

  lemma DecodeFromEncodeTitle(s: string)
    requires |s| <= 32
    requires forall i | 0 <= i < |s| :: Decodable(s[i])
    ensures DecodeFrom(EncodeTitle(s), 0) == s
  {
    var t := EncodeTitle(s);
    forall i | 0 <= i < |s|
      ensures t[2 * i] != 0 && PairChar(t[2 * i], t[2 * i + 1]) == [s[i]]
    {
      PairCharEncodeChar(s[i]);
    }
    DecodeFromPairs(t, s, 0);
  }

  /** Any text of up to 32 decodable characters survives encoding into a
      title and decoding back. */
  lemma DecodeEncodeTitle(s: string, tf: TitleFrame)
    requires |s| <= 32
    requires forall i | 0 <= i < |s| :: Decodable(s[i])
    requires tf.title == EncodeTitle(s)
    ensures DecodeTitle(tf) == s
  {
    DecodeFromEncodeTitle(s);
  }

  /** Full-width "AB" followed by a 0x00 lead decodes to "AB", whatever
      follows the terminator. */
  lemma {:induction false} DecodeTitleAB(tf: TitleFrame)
    requires tf.title[..5] == [0x82, 0x60, 0x82, 0x61, 0x00]
    ensures DecodeTitle(tf) == "AB"
  {
    var t := tf.title;
    assert t[0] == 0x82 && t[1] == 0x60 && t[2] == 0x82 && t[3] == 0x61 && t[4] == 0x00;
    assert DecodeFrom(t, 2) == "";
    assert DecodeFrom(t, 1) == "B";
  }

  /** A title whose first lead byte is 0x00 is empty. */
  lemma DecodeTitleEmpty(tf: TitleFrame)
    requires tf.title[0] == 0x00
    ensures DecodeTitle(tf) == ""
  {
  }

  /** Two titles that agree on every pair before a 0x00 lead byte at pair
      `z` decode alike, whatever the earlier pairs are (unknown ones
      included) and whatever follows the terminator. */
  lemma DecodeTitleStopsAtZero(tf: TitleFrame, tf': TitleFrame, z: nat)
    requires z < 32
    requires tf.title[2 * z] == 0 && tf'.title[2 * z] == 0
    requires tf.title[..2 * z] == tf'.title[..2 * z]
    ensures DecodeTitle(tf) == DecodeTitle(tf')
  {
    assert forall k | 0 <= k < 2 * z :: tf.title[k] == tf.title[..2 * z][k] == tf'.title[k];
    DecodeFromStopsAtZero(tf.title, tf'.title, 0, z);
  }

  lemma {:induction false} DecodeFromStopsAtZero(t: Bytes64, t': Bytes64, j: nat, z: nat)
    requires j <= z < 32
    requires t[2 * z] == 0 && t'[2 * z] == 0
    requires forall k | 0 <= k < 2 * z :: t[k] == t'[k]
    ensures DecodeFrom(t, j) == DecodeFrom(t', j)
    decreases z - j
  {
    if j < z {
      assert t[2 * j] == t'[2 * j] && t[2 * j + 1] == t'[2 * j + 1];
      DecodeFromStopsAtZero(t, t', j + 1, z);
    }
  }

  datatype IconDisplay = OneFrame | TwoFrames | ThreeFrames | UnknownFrames

  function DisplayFrames(d: IconDisplay): nat
  {
    match d
    case OneFrame => 1
    case TwoFrames => 2
    case ThreeFrames => 3
    case UnknownFrames => 0
  }

  /** `TitleFrame::get_icon_display`: only 0x11, 0x12 and 0x13 are known, and
      then the frame count agrees with the count the block loader uses. */
  function GetIconDisplay(tf: TitleFrame): (r: IconDisplay)
    ensures !r.UnknownFrames? <==> tf.display in {0x11, 0x12, 0x13}
    ensures !r.UnknownFrames? ==> DisplayFrames(r) == IconCount(tf.display) && tf.display & 0xF0 == 0x10
  {
    match tf.display
    case 0x11 => OneFrame
    case 0x12 => TwoFrames
    case 0x13 => ThreeFrames
    case _ => UnknownFrames
  }
}
