/** extmod/modframebuf.c: the bits of each pixel in the buffer, format by format, and the values of colors. */
module FrameOrder {
  import opened FramePixels

  /** The mask of bit k of a byte. */
  function Mask(k: nat): Cell
    requires k < 8
  {
    if k == 0 then 0x01 else if k == 1 then 0x02 else if k == 2 then 0x04 else if k == 3 then 0x08
    else if k == 4 then 0x10 else if k == 5 then 0x20 else if k == 6 then 0x40 else 0x80
  }

  /** Bit k of a byte, as a number. */
  function BitAt(c: Cell, k: nat): Cell
    requires k < 8
  {
    if c & Mask(k) != 0 then 1 else 0
  }

  lemma MonoCell(f: Format, k: nat, c: Cell)
    requires IsMono(f) && k < 8
    ensures GetCell(f, k, c) == BitAt(c, k)
  {
    BitTable();
  }

  /** The bit k of cell i. */
  lemma MonoPixel(g: Geometry, cells: seq<Cell>, x: nat, y: nat, i: nat, k: nat)
    requires IsMono(g.format) && Fits(g, cells) && InBounds(g, x, y)
    requires i == Index(g, x, y) && k == Sub(g.format, x, y)
    ensures k < 8 && i < |cells| && Get(g, cells, x, y) == BitAt(cells[i], k)
  {
    IndexBound(g, x, y);
    MonoCell(g.format, k, cells[i]);
  }

  /** MVLSB: a byte holds eight pixels one below the other, the uppermost in bit 0. */
  lemma VerticalPixel(g: Geometry, cells: seq<Cell>, x: nat, y: nat, i: nat, k: nat)
    requires g.format == MVLSB && Fits(g, cells) && InBounds(g, x, y)
    requires i == y / 8 * g.stride + x && k == y % 8
    ensures i < |cells| && Get(g, cells, x, y) == BitAt(cells[i], k)
  {
    IndexOfSource(g, x, y);
    MonoPixel(g, cells, x, y, i, k);
  }

  /** MHLSB: a byte holds eight pixels of a row, the leftmost in bit 7. */
  lemma HighBitFirst(g: Geometry, cells: seq<Cell>, x: nat, y: nat, i: nat, k: nat)
    requires g.format == MHLSB && Fits(g, cells) && InBounds(g, x, y)
    requires i == x / 8 + y * (g.stride / 8) && k == 7 - x % 8
    ensures i < |cells| && Get(g, cells, x, y) == BitAt(cells[i], k)
  {
    IndexOfSource(g, x, y);
    MonoPixel(g, cells, x, y, i, k);
  }

  /** MHMSB: the same with the leftmost pixel in bit 0. */
  lemma LowBitFirst(g: Geometry, cells: seq<Cell>, x: nat, y: nat, i: nat, k: nat)
    requires g.format == MHMSB && Fits(g, cells) && InBounds(g, x, y)
    requires i == x / 8 + y * (g.stride / 8) && k == x % 8
    ensures i < |cells| && Get(g, cells, x, y) == BitAt(cells[i], k)
  {
    IndexOfSource(g, x, y);
    MonoPixel(g, cells, x, y, i, k);
  }

  /** GS4_HMSB: a byte holds two pixels of a row, the left one in its high half. */
  lemma GrayPixel(g: Geometry, cells: seq<Cell>, x: nat, y: nat)
    requires g.format == GS4_HMSB && Fits(g, cells) && InBounds(g, x, y)
    ensures (x + y * g.stride) / 2 < |cells|
    ensures Get(g, cells, x, y) ==
            var c := cells[(x + y * g.stride) / 2];
            if x % 2 == 0 then (c >> 4) & 0x0f else c & 0x0f
  {
    IndexBound(g, x, y);
    IndexOfSource(g, x, y);
  }

  /** RGB565: a word for each pixel. */
  lemma ColorPixel(g: Geometry, cells: seq<Cell>, x: nat, y: nat)
    requires g.format == RGB565 && Fits(g, cells) && InBounds(g, x, y)
    ensures x + y * g.stride < |cells| && Get(g, cells, x, y) == cells[x + y * g.stride]
  {
    IndexBound(g, x, y);
    IndexOfSource(g, x, y);
  }

  /** How many cells a picture needs: rows of bytes, each for eight pixel rows in MVLSB. */
  lemma SizeIs(g: Geometry)
    ensures g.format == MVLSB ==> Size(g) == (g.height + 7) / 8 * g.stride
    ensures IsMonoHoriz(g.format) ==> Size(g) == g.height * (g.stride / 8)
    ensures g.format == GS4_HMSB ==> Size(g) == g.height * (g.stride / 2)
    ensures g.format == RGB565 ==> Size(g) == g.height * g.stride
  {
    RowStartIsProduct(if g.format == MVLSB then (g.height + 7) / 8 else g.height, Pitch(g));
  }

  // ---------- the documented bit order ----------

  /** docs/library/framebuf.rst:128-145: the bit of the leftmost pixel is bit 0 in MONO_HLSB and bit 7 in MONO_HMSB. */
  function DocumentedBit(f: Format, x: nat): nat
    requires IsMonoHoriz(f)
  {
    if f == MHLSB then x % 8 else 7 - x % 8
  }

  /** For no pixel the code agrees with this: it has the two formats exchanged. */
  lemma BitOrderIsExchanged(x: nat, y: nat)
    ensures Sub(MHLSB, x, y) != DocumentedBit(MHLSB, x) && Sub(MHMSB, x, y) != DocumentedBit(MHMSB, x)
    ensures Sub(MHLSB, x, y) == DocumentedBit(MHMSB, x) && Sub(MHMSB, x, y) == DocumentedBit(MHLSB, x)
  {
  }

  // ---------- colors ----------

  /** The greatest color that a format can keep. */
  function MaxColor(f: Format): Color {
    match f
    case RGB565 => 0xffff
    case GS4_HMSB => 0x0f
    case _ => 1
  }

  /** A pixel gives back the color that it was set to exactly if the format can keep it. */
  lemma ColorComesBackIff(f: Format, color: Color)
    ensures Value(f, color) as bv32 == color <==> color <= MaxColor(f)
  {
  }

  /** Other colors lose their high bits, or become 1 in the mono formats. */
  lemma ColorIsCut(f: Format, color: Color)
    ensures Value(f, color) as bv32 == if IsMono(f) then (if color == 0 then 0 else 1) else color & MaxColor(f)
  {
  }
}
