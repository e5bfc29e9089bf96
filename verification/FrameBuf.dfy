/** extmod/modframebuf.c: the buffer that the five formats store their pixels in, cell by cell. */
module FrameBuf {
  import opened FramePixels
  import opened FrameHalves
  import L = FrameLine

  /** (uint8_t)col << 4, stored in a byte, is the low half of the color in the high half. */
  lemma HighHalf(color: Color)
    ensures U8(((color & 0xff) as bv16) << 4) == U8(((color & 0x0f) as bv16) << 4)
    ensures ((color & 0xff) as bv16) & 0x0f == (color & 0x0f) as bv16
  {
  }

  /** The byte moved right by `offset` bits. */
  function Shr(c: Cell, offset: nat): Cell {
    match offset
    case 0 => c
    case 1 => c >> 1
    case 2 => c >> 2
    case 3 => c >> 3
    case 4 => c >> 4
    case 5 => c >> 5
    case 6 => c >> 6
    case _ => c >> 7
  }

  lemma BitIsShift(c: Cell, offset: nat)
    requires offset < 8
    ensures Shr(c, offset) & 0x01 == if c & Bit(offset) != 0 then 1 else 0
  {
    BitTable();
  }

  class FrameBuffer {
    const g: Geometry
    const buf: array<Cell>

    ghost predicate Valid() {
      Legal(g) && Size(g) <= buf.Length
    }

    /** framebuf_make_new, for a buffer that is large enough; nothing checks that it is. */
    constructor (buf: array<Cell>, width: nat, height: nat, format: Format, stride: nat)
      ensures this.buf == buf && g == Geometry(format, width, height, MakeStride(format, stride))
    {
      this.buf := buf;
      g := Geometry(format, width, height, if IsMonoHoriz(format) then (stride + 7) / 8 * 8 % 0x10000 else stride);
    }

    /** The first line of each function for one pixel. */
    method MonoHorizIndex(x: nat, y: nat) returns (index: nat)
      requires Valid() && IsMonoHoriz(g.format)
      ensures index == Index(g, x, y) && (InBounds(g, x, y) ==> index < buf.Length)
    {
      if InBounds(g, x, y) {
        IndexBound(g, x, y);
      }
      IndexOfSource(g, x, y);
      index := (x + y * g.stride) / 8;
    }

    method MvlsbIndex(x: nat, y: nat) returns (index: nat)
      requires Valid() && g.format == MVLSB
      ensures index == Index(g, x, y) && (InBounds(g, x, y) ==> index < buf.Length)
    {
      if InBounds(g, x, y) {
        IndexBound(g, x, y);
      }
      IndexOfSource(g, x, y);
      index := y / 8 * g.stride + x;
    }

    method Rgb565Index(x: nat, y: nat) returns (index: nat)
      requires Valid() && g.format == RGB565
      ensures index == Index(g, x, y) && (InBounds(g, x, y) ==> index < buf.Length)
    {
      if InBounds(g, x, y) {
        IndexBound(g, x, y);
      }
      IndexOfSource(g, x, y);
      index := x + y * g.stride;
    }

    method Gs4HmsbIndex(x: nat, y: nat) returns (index: nat)
      requires Valid() && g.format == GS4_HMSB
      ensures index == Index(g, x, y) && (InBounds(g, x, y) ==> index < buf.Length)
    {
      if InBounds(g, x, y) {
        IndexBound(g, x, y);
      }
      IndexOfSource(g, x, y);
      index := (x + y * g.stride) / 2;
    }

    method MonoHorizSetPixel(x: nat, y: nat, color: Color)
      requires Valid() && IsMonoHoriz(g.format) && InBounds(g, x, y)
      modifies buf
      ensures buf[..] == Put(g, old(buf[..]), x, y, Value(g.format, color))
    {
      var index := MonoHorizIndex(x, y);
      var offset := if g.format == MHMSB then x % 8 else 7 - x % 8;
      buf[index] := SetBit(buf[index], offset, color != 0);
    }

    method MvlsbSetPixel(x: nat, y: nat, color: Color)
      requires Valid() && g.format == MVLSB && InBounds(g, x, y)
      modifies buf
      ensures buf[..] == Put(g, old(buf[..]), x, y, Value(g.format, color))
    {
      var index := MvlsbIndex(x, y);
      buf[index] := SetBit(buf[index], y % 8, color != 0);
    }

    method Rgb565SetPixel(x: nat, y: nat, color: Color)
      requires Valid() && g.format == RGB565 && InBounds(g, x, y)
      modifies buf
      ensures buf[..] == Put(g, old(buf[..]), x, y, Value(g.format, color))
    {
      var index := Rgb565Index(x, y);
      buf[index] := (color & 0xffff) as bv16;
    }

    method Gs4HmsbSetPixel(x: nat, y: nat, col: Color)
      requires Valid() && g.format == GS4_HMSB && InBounds(g, x, y)
      modifies buf
      ensures buf[..] == Put(g, old(buf[..]), x, y, Value(g.format, col))
    {
      HighHalf(col);
      var pixel := Gs4HmsbIndex(x, y);
      if x % 2 != 0 {
        buf[pixel] := (((col & 0xff) as bv16) & 0x0f) | (buf[pixel] & 0xf0);
      } else {
        buf[pixel] := U8(((col & 0xff) as bv16) << 4) | (buf[pixel] & 0x0f);
      }
    }

    method SetPixel(x: nat, y: nat, color: Color)
      requires Valid() && InBounds(g, x, y)
      modifies buf
      ensures Painted(g, old(buf[..]), buf[..], Rect(x, y, 1, 1), Value(g.format, color))
    {
      ValueIsValue(g.format, color);
      PutPaints(g, buf[..], x, y, Value(g.format, color));
      match g.format {
        case MVLSB => MvlsbSetPixel(x, y, color);
        case RGB565 => Rgb565SetPixel(x, y, color);
        case GS4_HMSB => Gs4HmsbSetPixel(x, y, color);
        case _ => MonoHorizSetPixel(x, y, color);
      }
    }

    method ReadBit(index: nat, offset: nat) returns (v: Cell)
      requires index < buf.Length && offset < 8
      ensures v == if buf[index] & Bit(offset) != 0 then 1 else 0
    {
      BitIsShift(buf[index], offset);
      v := Shr(buf[index], offset) & 0x01;
    }

    method MonoHorizGetPixel(x: nat, y: nat) returns (v: Cell)
      requires Valid() && IsMonoHoriz(g.format) && InBounds(g, x, y)
      ensures v == Get(g, buf[..], x, y)
    {
      var index := MonoHorizIndex(x, y);
      var offset := if g.format == MHMSB then x % 8 else 7 - x % 8;
      v := ReadBit(index, offset);
    }

    method MvlsbGetPixel(x: nat, y: nat) returns (v: Cell)
      requires Valid() && g.format == MVLSB && InBounds(g, x, y)
      ensures v == Get(g, buf[..], x, y)
    {
      var index := MvlsbIndex(x, y);
      v := ReadBit(index, y % 8);
    }

    method Rgb565GetPixel(x: nat, y: nat) returns (v: Cell)
      requires Valid() && g.format == RGB565 && InBounds(g, x, y)
      ensures v == Get(g, buf[..], x, y)
    {
      var index := Rgb565Index(x, y);
      v := buf[index];
    }

    method Gs4HmsbGetPixel(x: nat, y: nat) returns (v: Cell)
      requires Valid() && g.format == GS4_HMSB && InBounds(g, x, y)
      ensures v == Get(g, buf[..], x, y)
    {
      var pixel := Gs4HmsbIndex(x, y);
      if x % 2 != 0 {
        return buf[pixel] & 0x0f;
      }
      return U8(buf[pixel]) >> 4;
    }

    method GetPixel(x: nat, y: nat) returns (v: Cell)
      requires Valid() && InBounds(g, x, y)
      ensures v == Get(g, buf[..], x, y)
    {
      match g.format {
        case MVLSB => v := MvlsbGetPixel(x, y);
        case RGB565 => v := Rgb565GetPixel(x, y);
        case GS4_HMSB => v := Gs4HmsbGetPixel(x, y);
        case _ => v := MonoHorizGetPixel(x, y);
      }
    }

    // ---------- filling ----------

    /** The body of the inner loops: one pixel, whose byte and bit are known. */
    method PaintBit(b: nat, offset: nat, on: bool, ghost x: nat, ghost y: nat)
      requires Valid() && IsMono(g.format) && InBounds(g, x, y)
      requires b == Index(g, x, y) && offset == Sub(g.format, x, y)
      modifies buf
      ensures Painted(g, old(buf[..]), buf[..], Rect(x, y, 1, 1), if on then 1 else 0)
    {
      IndexBound(g, x, y);
      PutPaints(g, buf[..], x, y, if on then 1 else 0);
      buf[b] := SetBit(buf[b], offset, on);
      assert buf[..] == Put(g, old(buf[..]), x, y, if on then 1 else 0);
    }

    /** Lines 81-86: one column. */
    method FillColumn(x: nat, y: nat, h: nat, col: Color)
      requires Valid() && IsMonoHoriz(g.format) && x < g.width && y + h <= g.height
      modifies buf
      ensures Painted(g, old(buf[..]), buf[..], Rect(x, y, 1, h), Value(g.format, col))
    {
      ghost var v := Value(g.format, col);
      var advance := g.stride / 8;
      IndexOfSource(g, x, y);
      var b := x / 8 + y * advance;
      var offset := if g.format == MHMSB then x % 8 else 7 - x % 8;
      PaintedNothing(g, buf[..], Rect(x, y, 1, 0), v);
      var hh := h;
      while hh > 0
        invariant 0 <= hh <= h
        invariant b == Index(g, x, y + h - hh)
        invariant Painted(g, old(buf[..]), buf[..], Rect(x, y, 1, h - hh), v)
      {
        ghost var before := buf[..];
        PaintBit(b, offset, col != 0, x, y + h - hh);
        JoinBelow(g, old(buf[..]), before, buf[..], Rect(x, y, 1, h - hh), 1, v);
        b, hh := b + advance, hh - 1;
      }
    }

    method MonoHorizFillRect(x0: nat, y: nat, w0: nat, h: nat, col: Color)
      requires Valid() && IsMonoHoriz(g.format) && x0 + w0 <= g.width && y + h <= g.height
      modifies buf
      ensures Painted(g, old(buf[..]), buf[..], Rect(x0, y, w0, h), Value(g.format, col))
    {
      ghost var v := Value(g.format, col);
      var x, w := x0, w0;
      PaintedNothing(g, buf[..], Rect(x, y, 0, h), v);
      while w > 0
        invariant 0 <= w <= w0 && x == x0 + w0 - w
        invariant Painted(g, old(buf[..]), buf[..], Rect(x0, y, w0 - w, h), v)
      {
        ghost var before := buf[..];
        FillColumn(x, y, h, col);
        JoinRight(g, old(buf[..]), before, buf[..], Rect(x0, y, w0 - w, h), 1, v);
        x, w := x + 1, w - 1;
      }
    }

    /** Lines 105-110: one row. */
    method FillRow(x: nat, y: nat, w: nat, col: Color)
      requires Valid() && g.format == MVLSB && x + w <= g.width && y < g.height
      modifies buf
      ensures Painted(g, old(buf[..]), buf[..], Rect(x, y, w, 1), Value(g.format, col))
    {
      ghost var v := Value(g.format, col);
      var b := MvlsbIndex(x, y);
      var offset := y % 8;
      PaintedNothing(g, buf[..], Rect(x, y, 0, 1), v);
      var ww := w;
      while ww > 0
        invariant 0 <= ww <= w
        invariant b == Index(g, x + w - ww, y)
        invariant Painted(g, old(buf[..]), buf[..], Rect(x, y, w - ww, 1), v)
      {
        ghost var before := buf[..];
        PaintBit(b, offset, col != 0, x + w - ww, y);
        JoinRight(g, old(buf[..]), before, buf[..], Rect(x, y, w - ww, 1), 1, v);
        b, ww := b + 1, ww - 1;
      }
    }

    method MvlsbFillRect(x: nat, y0: nat, w: nat, h0: nat, col: Color)
      requires Valid() && g.format == MVLSB && x + w <= g.width && y0 + h0 <= g.height
      modifies buf
      ensures Painted(g, old(buf[..]), buf[..], Rect(x, y0, w, h0), Value(g.format, col))
    {
      ghost var v := Value(g.format, col);
      var y, h := y0, h0;
      PaintedNothing(g, buf[..], Rect(x, y, w, 0), v);
      while h > 0
        invariant 0 <= h <= h0 && y == y0 + h0 - h
        invariant Painted(g, old(buf[..]), buf[..], Rect(x, y0, w, h0 - h), v)
      {
        ghost var before := buf[..];
        FillRow(x, y, w, col);
        JoinBelow(g, old(buf[..]), before, buf[..], Rect(x, y0, w, h0 - h), 1, v);
        y, h := y + 1, h - 1;
      }
    }

    /** Lines 128-130: one row, from the cell b on. */
    method FillWords(b0: nat, ghost x: nat, ghost y: nat, w: nat, colour: Color) returns (b: nat)
      requires Valid() && g.format == RGB565 && x + w <= g.width && y < g.height && b0 == Index(g, x, y)
      modifies buf
      ensures Painted(g, old(buf[..]), buf[..], Rect(x, y, w, 1), Value(g.format, colour))
      ensures b == b0 + w
    {
      ghost var v := Value(g.format, colour);
      b := b0;
      PaintedNothing(g, buf[..], Rect(x, y, 0, 1), v);
      var ww := w;
      while ww > 0
        invariant 0 <= ww <= w && b == b0 + w - ww
        invariant Painted(g, old(buf[..]), buf[..], Rect(x, y, w - ww, 1), v)
      {
        ghost var x' := x + w - ww;
        IndexBound(g, x', y);
        PutPaints(g, buf[..], x', y, v);
        ghost var before := buf[..];
        buf[b] := (colour & 0xffff) as bv16;
        assert buf[..] == Put(g, before, x', y, v);
        JoinRight(g, old(buf[..]), before, buf[..], Rect(x, y, w - ww, 1), 1, v);
        b, ww := b + 1, ww - 1;
      }
    }

    method Rgb565FillRect(x: nat, y: nat, w: nat, h0: nat, colour: Color)
      requires Valid() && g.format == RGB565 && x + w <= g.width && y + h0 <= g.height
      modifies buf
      ensures Painted(g, old(buf[..]), buf[..], Rect(x, y, w, h0), Value(g.format, colour))
    {
      ghost var v := Value(g.format, colour);
      var b := Rgb565Index(x, y);
      var h := h0;
      ghost var y' := y;
      PaintedNothing(g, buf[..], Rect(x, y, w, 0), v);
      while h > 0
        invariant 0 <= h <= h0 && y' == y + h0 - h
        invariant b == Index(g, x, y')
        invariant Painted(g, old(buf[..]), buf[..], Rect(x, y, w, h0 - h), v)
      {
        ghost var before := buf[..];
        b := FillWords(b, x, y', w, colour);
        JoinBelow(g, old(buf[..]), before, buf[..], Rect(x, y, w, h0 - h), 1, v);
        b, h := b + g.stride - w, h - 1;
        y' := y' + 1;
      }
    }

    method Memset(p: nat, v: Cell, n: nat)
      requires p + n <= buf.Length
      modifies buf
      ensures forall i | 0 <= i < buf.Length :: buf[i] == if p <= i < p + n then v else old(buf[i])
    {
      for k := 0 to n
        invariant forall i | 0 <= i < buf.Length :: buf[i] == if p <= i < p + k then v else old(buf[i])
      {
        buf[p + k] := v;
      }
    }

    /** Lines 166-180: one row, and where the pointer is behind it. */
    method FillPairs(p0: nat, w: nat, c: Cell, oddX: bool) returns (p: nat)
      requires c <= 0x0f && (w > 0 ==> 2 * p0 + (if oddX then 1 else 0) + w <= 2 * buf.Length)
      modifies buf
      ensures HalvesSet(old(buf[..]), buf[..], 2 * p0 + (if oddX then 1 else 0), w, c)
      ensures p == p0 + if !oddX then (w + 1) / 2 else if w == 0 then 0 else 1 + (w - 1) / 2
    {
      p := p0;
      var ww := w;
      ghost var first := 2 * p0 + if oddX then 1 else 0;
      NothingSet(buf[..], first, c);
      if oddX && ww > 0 {
        FillRightHalf(p, c);
        p, ww := p + 1, ww - 1;
      }
      ghost var before := buf[..];
      p := FillFromEven(p, ww, c, oddX);
      if w > 0 {
        SetMore(old(buf[..]), before, buf[..], first, w - ww, ww, c);
      }
    }

    /** Lines 172-180: the rest of the row, from the left half of a byte on. */
    method FillFromEven(p0: nat, w: nat, c: Cell, oddX: bool) returns (p: nat)
      requires c <= 0x0f && (w > 0 ==> 2 * p0 + w <= 2 * buf.Length)
      modifies buf
      ensures HalvesSet(old(buf[..]), buf[..], 2 * p0, w, c)
      ensures p == p0 + w / 2 + if w % 2 != 0 && !oddX then 1 else 0
    {
      p := p0;
      MemsetPairs(p, w / 2, c);
      p := p + w / 2;
      if w % 2 != 0 {
        ghost var before := buf[..];
        FillLeftHalf(p, c);
        SetMore(old(buf[..]), before, buf[..], 2 * p0, w - 1, 1, c);
        if !oddX {
          p := p + 1;
        }
      }
    }

    method FillRightHalf(p: nat, c: Cell)
      requires p < buf.Length && c <= 0x0f
      modifies buf
      ensures HalvesSet(old(buf[..]), buf[..], 2 * p + 1, 1, c)
    {
      ghost var before := buf[..];
      Halves(buf[p], c);
      CellSets(before, p, (buf[p] & 0xf0) | c, 2 * p + 1, 1, c);
      buf[p] := (buf[p] & 0xf0) | c;
      assert buf[..] == before[p := (before[p] & 0xf0) | c];
    }

    method FillLeftHalf(p: nat, c: Cell)
      requires p < buf.Length && c <= 0x0f
      modifies buf
      ensures HalvesSet(old(buf[..]), buf[..], 2 * p, 1, c)
    {
      ghost var before := buf[..];
      Halves(buf[p], c);
      CellSets(before, p, U8(c << 4) | (buf[p] & 0x0f), 2 * p, 1, c);
      buf[p] := U8(c << 4) | (buf[p] & 0x0f);
      assert buf[..] == before[p := U8(c << 4) | (before[p] & 0x0f)];
    }

    method MemsetPairs(p: nat, n: nat, c: Cell)
      requires c <= 0x0f && (n > 0 ==> p + n <= buf.Length)
      modifies buf
      ensures HalvesSet(old(buf[..]), buf[..], 2 * p, 2 * n, c)
    {
      if n > 0 {
        Memset(p, U8(c << 4) | c, n);
      }
      PairsSet(old(buf[..]), buf[..], p, n, c);
    }

    /** gs4_hmsb_fill_rect, for any stride: the halves that the loop stores to. For the strides and rectangles of
        FillWorks they are those of the pixels. */
    method Gs4HmsbFillRect(x: nat, y: nat, w: nat, h0: nat, colour: Color)
      requires g.format == GS4_HMSB && w <= g.stride
      requires w > 0 && h0 > 0 ==> RowHalf(HalfOf(g.stride, x, y), Step(g.stride, w), h0 - 1) + w <= 2 * buf.Length
      modifies buf
      ensures HalvesFilled(old(buf[..]), buf[..], HalfOf(g.stride, x, y), Step(g.stride, w), w, h0, Value(g.format, colour))
    {
      var c: Cell := (colour & 0x0f) as bv16;
      RowStartIsProduct(y, g.stride);
      var p := (x + y * g.stride) / 2;
      FillPairRows(p, x, w, h0, c, HalfOf(g.stride, x, y));
    }

    /** Lines 160 and 163-183: the loop over the rows. */
    method FillPairRows(p0: nat, x: nat, w: nat, h0: nat, c: Cell, ghost first: nat)
      requires w <= g.stride && c <= 0x0f && 2 * p0 + x % 2 == first
      requires w > 0 && h0 > 0 ==> RowHalf(first, Step(g.stride, w), h0 - 1) + w <= 2 * buf.Length
      modifies buf
      ensures HalvesFilled(old(buf[..]), buf[..], first, Step(g.stride, w), w, h0, c)
    {
      ghost var step := Step(g.stride, w);
      var p, h := p0, h0;
      var pixelCountTillNextLine := (g.stride - w) / 2;
      NothingFilled(buf[..], first, step, w, c);
      while h > 0
        invariant 0 <= h <= h0 && 2 * p + x % 2 == RowHalf(first, step, h0 - h)
        invariant HalvesFilled(old(buf[..]), buf[..], first, step, w, h0 - h, c)
      {
        ghost var before, start := buf[..], p;
        RowHalfMonotone(first, step, h0 - h, h0);
        p := FillPairs(p, w, c, x % 2 == 1);
        FilledMore(old(buf[..]), before, buf[..], first, step, w, h0 - h, c);
        PointerStep(g.stride, x, w, start, p);
        p, h := p + pixelCountTillNextLine, h - 1;
      }
    }

    /** In a legal layout that paints the rectangle. */
    method Gs4HmsbPaintRect(x: nat, y: nat, w: nat, h: nat, colour: Color)
      requires Valid() && g.format == GS4_HMSB && x + w <= g.width && y + h <= g.height
      modifies buf
      ensures Painted(g, old(buf[..]), buf[..], Rect(x, y, w, h), Value(g.format, colour))
    {
      if w > 0 && h > 0 {
        LastHalf(g, buf[..], x, y, w, h);
      }
      Gs4HmsbFillRect(x, y, w, h, colour);
      FilledIsPainted(g, old(buf[..]), buf[..], x, y, w, h, Value(g.format, colour));
    }

    /** The fill_rect functions, on a rectangle inside the picture. */
    method FillInside(x: nat, y: nat, w: nat, h: nat, col: Color)
      requires Valid() && x + w <= g.width && y + h <= g.height
      modifies buf
      ensures Painted(g, old(buf[..]), buf[..], Rect(x, y, w, h), Value(g.format, col))
    {
      match g.format {
        case MVLSB => MvlsbFillRect(x, y, w, h, col);
        case RGB565 => Rgb565FillRect(x, y, w, h, col);
        case GS4_HMSB => Gs4HmsbPaintRect(x, y, w, h, col);
        case _ => MonoHorizFillRect(x, y, w, h, col);
      }
    }

    /** fill_rect: any rectangle is painted as far as it lies inside the picture. */
    method FillRect(x: int, y: int, w: int, h: int, col: Color)
      requires Valid()
      modifies buf
      ensures Painted(g, old(buf[..]), buf[..], Rect(x, y, w, h), Value(g.format, col))
    {
      ghost var v := Value(g.format, col);
      if h < 1 || w < 1 || x + w <= 0 || y + h <= 0 || y >= g.height || x >= g.width {
        PaintedNothing(g, buf[..], Rect(x, y, 0, 0), v);
        PaintedClip(g, buf[..], buf[..], Rect(x, y, w, h), Rect(x, y, 0, 0), v);
        return;
      }
      var xend := if g.width < x + w then g.width else x + w;
      var yend := if g.height < y + h then g.height else y + h;
      var x', y' := if x < 0 then 0 else x, if y < 0 then 0 else y;
      FillInside(x', y', xend - x', yend - y', col);
      PaintedClip(g, old(buf[..]), buf[..], Rect(x, y, w, h), Rect(x', y', xend - x', yend - y'), v);
    }

    /** framebuf_fill */
    method Fill(col: Color)
      requires Valid()
      modifies buf
      ensures Painted(g, old(buf[..]), buf[..], Rect(0, 0, g.width, g.height), Value(g.format, col))
    {
      FillInside(0, 0, g.width, g.height, col);
    }

    // ---------- scrolling ----------

    /** framebuf_scroll */
    method Scroll(xstep: int, ystep: int)
      requires Valid() && g.CanScroll(xstep, ystep)
      modifies buf
      ensures Scrolled(g, old(buf[..]), buf[..], xstep, ystep)
    {
      var sx, y, xend, yend, dx, dy;
      if xstep < 0 {
        sx, xend, dx := 0, g.width + xstep, 1;
      } else {
        sx, xend, dx := g.width - 1, xstep - 1, -1;
      }
      if ystep < 0 {
        y, yend, dy := 0, g.height + ystep, 1;
      } else {
        y, yend, dy := g.height - 1, ystep - 1, -1;
      }
      ScrollRows(xstep, ystep, sx, y, xend, yend, dx, dy);
    }

    /** Lines 486-490. */
    method ScrollRows(xstep: int, ystep: int, sx: int, y0: int, xend: int, yend: int, dx: int, dy: int)
      requires Valid() && g.CanScroll(xstep, ystep)
      requires if xstep < 0 then sx == 0 && xend == g.width + xstep && dx == 1
               else sx == g.width - 1 && xend == xstep - 1 && dx == -1
      requires if ystep < 0 then y0 == 0 && yend == g.height + ystep && dy == 1
               else y0 == g.height - 1 && yend == ystep - 1 && dy == -1
      modifies buf
      ensures Scrolled(g, old(buf[..]), buf[..], xstep, ystep)
    {
      var y := y0;
      while y != yend
        invariant if ystep < 0 then 0 <= y <= yend else yend <= y < g.height
        invariant ScrolledTo(g, old(buf[..]), buf[..], xstep, ystep, sx, y)
        decreases if ystep < 0 then yend - y else y - yend
      {
        ScrollRow(xstep, ystep, y, sx, xend, dx, old(buf[..]));
        ScrollRowEnds(g, old(buf[..]), buf[..], xstep, ystep, y);
        y := y + dy;
      }
      ScrollEnds(g, old(buf[..]), buf[..], xstep, ystep);
    }

    /** Lines 487-489: one row. */
    method ScrollRow(xstep: int, ystep: int, y: nat, sx: int, xend: int, dx: int, ghost before: seq<Cell>)
      requires Valid() && 0 <= y < g.height && 0 <= y - ystep < g.height && g.CanScroll(xstep, ystep)
      requires if xstep < 0 then sx == 0 && xend == g.width + xstep && dx == 1
               else sx == g.width - 1 && xend == xstep - 1 && dx == -1
      requires ScrolledTo(g, before, buf[..], xstep, ystep, sx, y)
      modifies buf
      ensures ScrolledTo(g, before, buf[..], xstep, ystep, xend, y)
    {
      var x := sx;
      while x != xend
        invariant if xstep < 0 then 0 <= x <= xend else xend <= x < g.width
        invariant ScrolledTo(g, before, buf[..], xstep, ystep, x, y)
        decreases if xstep < 0 then xend - x else x - xend
      {
        ghost var now := buf[..];
        CopyPixel(x, y, x - xstep, y - ystep);
        ScrollPixel(g, before, now, buf[..], xstep, ystep, x, y);
        x := x + dx;
      }
    }

    method CopyPixel(x: nat, y: nat, x': nat, y': nat)
      requires Valid() && InBounds(g, x, y) && InBounds(g, x', y')
      modifies buf
      ensures Painted(g, old(buf[..]), buf[..], Rect(x, y, 1, 1), Get(g, old(buf[..]), x', y'))
    {
      var v := GetPixel(x', y');
      GetIsValue(g, buf[..], x', y');
      SetValue(x, y, v);
    }

    method SetValue(x: nat, y: nat, v: Cell)
      requires Valid() && InBounds(g, x, y) && IsValue(g.format, v)
      modifies buf
      ensures Painted(g, old(buf[..]), buf[..], Rect(x, y, 1, 1), v)
    {
      ValueOfValue(g.format, v);
      SetPixel(x, y, v as bv32);
    }

    // ---------- lines ----------

    /** framebuf_line */
    method DrawLine(l: L.Line, col: Color)
      requires Valid()
      modifies buf
      ensures L.Drawn(g, old(buf[..]), buf[..], l, L.Steps(l) + 1, Value(g.format, col))
    {
      var x1, y1, dx, sx, dy, sy := l.x1, l.y1, l.x2 - l.x1, 1, l.y2 - l.y1, 1;
      if dx <= 0 {
        dx, sx := -dx, -1;
      }
      if dy <= 0 {
        dy, sy := -dy, -1;
      }
      var steep := dy > dx;
      if steep {
        x1, y1 := y1, x1;
        dx, dy := dy, dx;
        sx, sy := sy, sx;
      }
      WalkLine(l, x1, y1, dx, dy, sx, sy, steep, col);
      L.EndPoints(l);
      PlotStep(l, dx, false, l.x2, l.y2, col, old(buf[..]));
    }

    /** Lines 392-409: the loop over the points but the last one. */
    method WalkLine(ghost l: L.Line, x0: int, y0: int, dx: nat, dy: nat, sx: int, sy: int, steep: bool, col: Color)
      requires Valid() && steep == L.Steep(l) && dx == L.Steps(l) && dy == L.MinorSpan(l)
      requires sx == L.MajorStep(l) && sy == L.MinorStep(l)
      requires (x0, y0) == if steep then (l.y1, l.x1) else (l.x1, l.y1)
      modifies buf
      ensures L.Drawn(g, old(buf[..]), buf[..], l, L.Steps(l), Value(g.format, col))
    {
      var x1, y1, e := x0, y0, 2 * dy - dx;
      L.AtStart(l);
      for i := 0 to dx
        invariant L.AtStep(l, i, x1, y1, e)
        invariant L.Drawn(g, old(buf[..]), buf[..], l, i, Value(g.format, col))
      {
        PlotStep(l, i, steep, x1, y1, col, old(buf[..]));
        L.NextStep(l, i, x1, y1, e);
        e, y1 := MinorSteps(e, y1, dx, sy);
        x1, e := x1 + sx, e + 2 * dy;
      }
    }

    /** Lines 403-406: the loop takes at most one step. */
    method MinorSteps(e0: int, y0: int, dx: int, sy: int) returns (e: int, y1: int)
      requires e0 < 2 * dx && dx > 0
      ensures if e0 >= 0 then e == e0 - 2 * dx && y1 == y0 + sy else e == e0 && y1 == y0
    {
      e, y1 := e0, y0;
      while e >= 0
        invariant (e == e0 && y1 == y0) || (e0 >= 0 > e && e == e0 - 2 * dx && y1 == y0 + sy)
        decreases e
      {
        y1 := y1 + sy;
        e := e - 2 * dx;
      }
    }

    /** Lines 394-402 and 411-413: a point is drawn if it lies inside the picture. */
    method PlotStep(ghost l: L.Line, ghost i: nat, steep: bool, x1: int, y1: int, col: Color, ghost before: seq<Cell>)
      requires Valid() && L.PointAt(l, i) == if steep then (y1, x1) else (x1, y1)
      requires L.Drawn(g, before, buf[..], l, i, Value(g.format, col))
      modifies buf
      ensures L.Drawn(g, before, buf[..], l, i + 1, Value(g.format, col))
    {
      ghost var now := buf[..];
      if steep {
        if InBounds(g, y1, x1) {
          SetPixel(y1, x1, col);
        }
      } else {
        if InBounds(g, x1, y1) {
          SetPixel(x1, y1, col);
        }
      }
      L.DrawnNext(g, before, now, buf[..], l, i, Value(g.format, col));
    }
  }
}
