/** The icon translator: a 16x16 icon frame holds one 4-bit palette index
    per pixel, two per byte; the palette holds 15-bit colours (5 bits each of
    red, green and blue, bit 15 unused). The output is 8-bit RGBA. */
module Icons {
  import opened Bytes
  import opened Records
  import opened DataBlocks

  const PIXELS: nat := 256
  const RGBA_SIZE: nat := 1024

  /** Palette index of pixel `p`: the low nibble of byte `p / 2` for an even
      pixel, its high nibble for an odd one. */
  function PixelIndex(data: FrameBytes, p: nat): (k: nat)
    requires p < PIXELS
    ensures k < 16
  {
    if p % 2 == 0 then (data[p / 2] & 0x0F) as nat else ((data[p / 2] >> 4) & 0x0F) as nat
  }

  /** The two indices of a byte are its two nibbles, low pixel first. */
  lemma PixelIndexNibbles(data: FrameBytes, i: nat)
    requires i < FRAME
    ensures PixelIndex(data, 2 * i) + 16 * PixelIndex(data, 2 * i + 1) == data[i] as int
  {
    var v := data[i];
    assert (2 * i) / 2 == i && (2 * i + 1) / 2 == i && (2 * i) % 2 == 0 && (2 * i + 1) % 2 == 1;
    assert (v & 0x0F) as int + 16 * ((v >> 4) & 0x0F) as int == v as int;
  }

  /** The 5-bit colour field `c` (0 red, 1 green, 2 blue) of a palette entry,
      read arithmetically. */
  function Field(pixel: u16, c: nat): nat
    requires c < 3
  {
    FieldOf(pixel as int, c)
  }

  function FieldOf(n: nat, c: nat): nat
    requires c < 3
  {
    if c == 0 then n % 32 else if c == 1 then (n / 32) % 32 else (n / 1024) % 32
  }

  /** Channel `c` of the RGBA colour of a palette entry: a 5-bit field
      multiplied by 8, or 255 for alpha. Bit 15 plays no part. */
  function Channel(pixel: u16, c: nat): (r: byte)
    requires c < 4
    ensures c < 3 ==> r as int == 8 * Field(pixel, c)
    ensures c < 3 ==> r <= 248
    ensures c == 3 ==> r == 255
  {
    FieldBits(pixel);
    if c == 0 then ((pixel & 0x001F) as byte) * 8
    else if c == 1 then (((pixel & (0x001F << 5)) >> 5) as byte) * 8
    else if c == 2 then (((pixel & (0x001F << 10)) >> 10) as byte) * 8
    else 255
  }

  lemma SplitLow(x: u16)
    ensures x as int == 32 * (x >> 5) as int + (x & 0x1F) as int
    ensures (x & 0x1F) as int < 32
  {
  }

  lemma LowField(x: u16)
    ensures (x & 0x1F) as int == (x as int) % 32
    ensures (x >> 5) as int == (x as int) / 32
  {
    SplitLow(x);
    var n, h, l := x as int, (x >> 5) as int, (x & 0x1F) as int;
    DivMod32(n, h, l);
  }

  lemma DivMod32(n: int, h: int, l: int)
    requires n == 32 * h + l && 0 <= l < 32
    ensures n % 32 == l && n / 32 == h
  {
  }

  lemma Times8(y: u16)
    requires y < 32
    ensures ((y as byte) * 8) as int == 8 * (y as int)
  {
  }

  /** The masked-and-shifted fields the translator reads are the arithmetic
      5-bit fields, and multiplying them by 8 does not wrap. */
  lemma {:induction false} FieldBits(x: u16)
    ensures ((x & 0x001F) as byte * 8) as int == 8 * Field(x, 0)
    ensures ((((x & (0x001F << 5)) >> 5) as byte) * 8) as int == 8 * Field(x, 1)
    ensures ((((x & (0x001F << 10)) >> 10) as byte) * 8) as int == 8 * Field(x, 2)
  {
    assert (x & (0x1F << 5)) >> 5 == (x >> 5) & 0x1F;
    assert (x & (0x1F << 10)) >> 10 == ((x >> 5) >> 5) & 0x1F;
    LowField(x);
    LowField(x >> 5);
    LowField((x >> 5) >> 5);
    Times8(x & 0x1F);
    Times8((x >> 5) & 0x1F);
    Times8(((x >> 5) >> 5) & 0x1F);
    Div1024(x as int);
  }

  /** The colour of a palette entry does not depend on its top bit (the
      PlayStation's semi-transparency flag). */
  lemma ChannelIgnoresBit15(pixel: u16, c: nat)
    requires c < 4
    ensures Channel(pixel ^ 0x8000, c) == Channel(pixel, c)
  {
    if c < 3 {
      var q := pixel ^ 0x8000;
      Low15(pixel);
      Low15(q);
      assert q & 0x7FFF == pixel & 0x7FFF;
      FieldLow15((pixel >> 15) as int, (pixel & 0x7FFF) as int, c);
      FieldLow15((q >> 15) as int, (q & 0x7FFF) as int, c);
    }
  }

  lemma Low15(x: u16)
    ensures x as int == 32768 * (x >> 15) as int + (x & 0x7FFF) as int
    ensures (x & 0x7FFF) as int < 32768
  {
  }

  /** A 5-bit field read arithmetically only sees the low 15 bits. */
  lemma FieldLow15(h: int, l: int, c: nat)
    requires 0 <= h && 0 <= l < 32768 && c < 3
    ensures FieldOf(32768 * h + l, c) == FieldOf(l, c)
  {
    var n := 32768 * h + l;
    Div1024(n);
    Div1024(l);
    Mod32Shift(n, l, 1024 * h);
    Mod32Shift(n / 32, l / 32, 32 * h);
    Mod32Shift(n / 1024, l / 1024, h);
  }

  /** Adding a multiple of 32 keeps the remainder and shifts the quotient. */
  lemma Mod32Shift(n: int, l: int, h: int)
    requires 0 <= l && 0 <= h && n == 32 * h + l
    ensures n % 32 == l % 32 && n / 32 == h + l / 32
  {
    DivMod32(n, h + l / 32, l % 32);
  }

  lemma Div1024(n: int)
    requires 0 <= n
    ensures n / 1024 == (n / 32) / 32
  {
    DivMod32(n / 32, (n / 32) / 32, (n / 32) % 32);
    DivMod32(n, n / 32, n % 32);
    assert n == 1024 * ((n / 32) / 32) + (32 * ((n / 32) % 32) + n % 32);
  }

  /** The RGBA bytes of pixels `0..j - 1` of an icon frame. */
  predicate RgbaPrefix(rgba: seq<byte>, palette: Palette, data: FrameBytes, j: nat)
  {
    && |rgba| == 4 * j
    && forall k | 0 <= k < 4 * j :: k / 4 < PIXELS && rgba[k] == Channel(palette[PixelIndex(data, k / 4)], k % 4)
  }

  /** The four RGBA bytes of one palette entry. */
  function PixelRgba(pixel: u16): (r: seq<byte>)
    ensures |r| == 4 && forall c | 0 <= c < 4 :: r[c] == Channel(pixel, c)
  {
    [Channel(pixel, 0), Channel(pixel, 1), Channel(pixel, 2), Channel(pixel, 3)]
  }

  /** Appending pixel `j`'s four channels extends the prefix by one pixel. */
  lemma AppendPixel(rgba: seq<byte>, palette: Palette, data: FrameBytes, j: nat)
    requires j < PIXELS && RgbaPrefix(rgba, palette, data, j)
    ensures RgbaPrefix(rgba + PixelRgba(palette[PixelIndex(data, j)]), palette, data, j + 1)
  {
    var r := rgba + PixelRgba(palette[PixelIndex(data, j)]);
    forall k | 4 * j <= k < 4 * j + 4
      ensures k / 4 < PIXELS && r[k] == Channel(palette[PixelIndex(data, k / 4)], k % 4)
    {
      assert k / 4 == j && k % 4 == k - 4 * j;
    }
  }

  /** `DataBlock::translate_bmp_to_rgba`: for every byte of the icon frame,
      low nibble then high nibble, look the index up in the block's palette
      and emit red, green, blue and alpha. */
  method TranslateBmpToRgba(db: DataBlock, f: Frame) returns (rgba: seq<byte>)
    ensures |rgba| == RGBA_SIZE
    ensures forall k | 0 <= k < RGBA_SIZE ::
      rgba[k] == Channel(db.titleFrame.iconPalette[PixelIndex(f.data, k / 4)], k % 4)
  {
    var palette := db.titleFrame.iconPalette;
    rgba := [];
    var i := 0;
    while i < FRAME
      invariant 0 <= i <= FRAME
      invariant RgbaPrefix(rgba, palette, f.data, 2 * i)
    {
      rgba := TranslateByte(rgba, palette, f.data, i);
      i := i + 1;
    }
  }

  /** The inner loop over the two nibbles of byte `i`, low one first. */
  method TranslateByte(rgba: seq<byte>, palette: Palette, data: FrameBytes, i: nat) returns (out: seq<byte>)
    requires i < FRAME && RgbaPrefix(rgba, palette, data, 2 * i)
    ensures RgbaPrefix(out, palette, data, 2 * i + 2)
  {
    var v := data[i];
    out := rgba;
    var s := 0;
    while s < 2
      invariant 0 <= s <= 2
      invariant RgbaPrefix(out, palette, data, 2 * i + s)
    {
      var index := ((v >> (4 * s)) & 0x0F) as nat;
      assert index == PixelIndex(data, 2 * i + s);
      AppendPixel(out, palette, data, 2 * i + s);
      out := out + PixelRgba(palette[index]);
      s := s + 1;
    }
  }

  /** Every translated pixel is opaque and every colour channel is a multiple
      of 8 no larger than 248. */
  lemma {:induction false} RgbaChannels(db: DataBlock, f: Frame, rgba: seq<byte>, p: nat)
    requires |rgba| == RGBA_SIZE
    requires forall k | 0 <= k < RGBA_SIZE ::
      rgba[k] == Channel(db.titleFrame.iconPalette[PixelIndex(f.data, k / 4)], k % 4)
    requires p < PIXELS
    ensures rgba[4 * p + 3] == 255
    ensures forall k | 4 * p <= k < 4 * p + 3 :: rgba[k] <= 248 && rgba[k] as int % 8 == 0
  {
    assert (4 * p + 3) / 4 == p && (4 * p + 3) % 4 == 3;
    forall k | 4 * p <= k < 4 * p + 3
      ensures rgba[k] <= 248 && rgba[k] as int % 8 == 0
    {
      assert k / 4 == p && k % 4 < 3;
      var pixel := db.titleFrame.iconPalette[PixelIndex(f.data, p)];
      assert rgba[k] as int == 8 * Field(pixel, k % 4);
    }
  }
}
