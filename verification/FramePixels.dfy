/** extmod/modframebuf.c: where the five formats keep their pixels, and what it means to paint a part of the
    picture. A buffer is a sequence of cells: bytes, or 16-bit words for RGB565. */
module FramePixels {

  datatype Format = MVLSB | RGB565 | GS4_HMSB | MHLSB | MHMSB

  datatype Geometry = Geometry(format: Format, width: nat, height: nat, stride: nat)
  {
    /** The loops of a scroll end, and no pixel outside the picture is touched: the shift is at most the size of the
        picture, or there are no rows to be scrolled. */
    predicate CanScroll(xstep: int, ystep: int) {
      -(height as int) <= ystep <= height
      && (ystep == height || ystep == -(height as int) || -(width as int) <= xstep <= width)
    }
  }

  predicate IsMonoHoriz(f: Format) {
    f in {MHLSB, MHMSB}
  }

  predicate IsMono(f: Format) {
    f == MVLSB || IsMonoHoriz(f)
  }

  /** What the formats need: rows do not overlap and start at a cell of their own. */
  predicate Legal(g: Geometry) {
    && g.stride >= g.width
    && (IsMonoHoriz(g.format) ==> g.stride % 8 == 0)
    && (g.format == GS4_HMSB ==> g.stride % 2 == 0)
  }

  predicate InBounds(g: Geometry, x: int, y: int) {
    0 <= x < g.width && 0 <= y < g.height
  }

  /** Lines 231-245: the stride of a new buffer, an uint16_t. */
  function MakeStride(f: Format, stride: nat): nat {
    if IsMonoHoriz(f) then (stride + 7) / 8 * 8 % 0x10000 else stride
  }

  /** A new buffer whose stride is not given is laid out legally except for an odd width in GS4_HMSB, and for a
      width in the horizontal mono formats that cannot be rounded up. */
  lemma DefaultStrideIsLegal(f: Format, width: nat, height: nat)
    requires width < 0x10000
    ensures Legal(Geometry(f, width, height, MakeStride(f, width))) <==>
            (f == GS4_HMSB ==> width % 2 == 0) && (IsMonoHoriz(f) ==> width <= 0xfff8)
  {
  }

  // ---------- places ----------

  function Col(f: Format, x: nat): nat {
    if IsMonoHoriz(f) then x / 8 else if f == GS4_HMSB then x / 2 else x
  }

  function Row(f: Format, y: nat): nat {
    if f == MVLSB then y / 8 else y
  }

  function Pitch(g: Geometry): nat {
    Col(g.format, g.stride)
  }

  /** The cell of a pixel. */
  function Index(g: Geometry, x: nat, y: nat): nat {
    Col(g.format, x) + RowStart(Row(g.format, y), Pitch(g))
  }

  /** The product r * pitch. */
  function RowStart(r: nat, pitch: nat): nat {
    if r == 0 then 0 else RowStart(r - 1, pitch) + pitch
  }

  lemma {:induction false} RowStartIsProduct(r: nat, pitch: nat)
    ensures RowStart(r, pitch) == r * pitch
  {
    if r > 0 {
      RowStartIsProduct(r - 1, pitch);
      assert r * pitch == (r - 1) * pitch + pitch;
    }
  }

  /** The place of a pixel in its cell: a bit of a byte, a half of a byte, or the whole word. */
  function Sub(f: Format, x: nat, y: nat): (s: nat)
    ensures IsSub(f, s)
  {
    match f
    case MVLSB => y % 8
    case RGB565 => 0
    case GS4_HMSB => x % 2
    case MHMSB => x % 8
    case MHLSB => 7 - x % 8
  }

  /** How many cells the picture takes. */
  function Size(g: Geometry): nat {
    RowStart(if g.format == MVLSB then (g.height + 7) / 8 else g.height, Pitch(g))
  }

  lemma {:induction false} RowBelow(r: nat, r': nat, pitch: nat)
    requires r < r'
    ensures RowStart(r, pitch) + pitch <= RowStart(r', pitch)
  {
    if r < r' - 1 {
      RowBelow(r, r' - 1, pitch);
    }
  }

  lemma RowColUnique(c: nat, r: nat, c': nat, r': nat, pitch: nat)
    requires c < pitch && c' < pitch && c + RowStart(r, pitch) == c' + RowStart(r', pitch)
    ensures c == c' && r == r'
  {
    if r < r' {
      RowBelow(r, r', pitch);
    } else if r' < r {
      RowBelow(r', r, pitch);
    }
  }

  lemma ColBelowPitch(g: Geometry, x: nat)
    requires Legal(g) && x < g.width
    ensures Col(g.format, x) < Pitch(g)
  {
  }

  lemma IndexBound(g: Geometry, x: nat, y: nat)
    requires Legal(g) && InBounds(g, x, y)
    ensures Index(g, x, y) < Size(g)
  {
    ColBelowPitch(g, x);
    var rows, r := if g.format == MVLSB then (g.height + 7) / 8 else g.height, Row(g.format, y);
    RowBelow(r, rows, Pitch(g));
  }

  /** No two pixels share a place. */
  lemma PlacesAreDistinct(g: Geometry, x: nat, y: nat, x': nat, y': nat)
    requires Legal(g) && InBounds(g, x, y) && InBounds(g, x', y')
    requires Index(g, x, y) == Index(g, x', y') && Sub(g.format, x, y) == Sub(g.format, x', y')
    ensures x == x' && y == y'
  {
    ColBelowPitch(g, x);
    ColBelowPitch(g, x');
    RowColUnique(Col(g.format, x), Row(g.format, y), Col(g.format, x'), Row(g.format, y'), Pitch(g));
  }

  lemma DivOfSum(x: nat, y: nat, stride: nat, n: nat)
    requires n in {2, 8} && stride % n == 0
    ensures (x + y * stride) / n == x / n + y * (stride / n)
  {
    var p := stride / n;
    assert stride == n * p;
    assert y * stride == n * (y * p);
  }

  /** The source's formulas for the cell. */
  lemma IndexOfSource(g: Geometry, x: nat, y: nat)
    requires Legal(g)
    ensures IsMonoHoriz(g.format) ==> Index(g, x, y) == (x + y * g.stride) / 8 == x / 8 + y * (g.stride / 8)
    ensures g.format == GS4_HMSB ==> Index(g, x, y) == (x + y * g.stride) / 2
    ensures g.format == RGB565 ==> Index(g, x, y) == x + y * g.stride
    ensures g.format == MVLSB ==> Index(g, x, y) == y / 8 * g.stride + x
  {
    RowStartIsProduct(Row(g.format, y), Pitch(g));
    if IsMonoHoriz(g.format) {
      DivOfSum(x, y, g.stride, 8);
    } else if g.format == GS4_HMSB {
      DivOfSum(x, y, g.stride, 2);
    }
  }

  // ---------- cells ----------

  type Color = bv32
  type Cell = bv16

  /** A store to an uint8_t. */
  function U8(c: Cell): Cell {
    c & 0xff
  }

  /** The mask of the bit at `offset`. */
  function Bit(offset: nat): Cell {
    if offset == 0 then 1 else Bit(offset - 1) << 1
  }

  lemma BitTable()
    ensures Bit(0) == 1 && Bit(1) == 2 && Bit(2) == 4 && Bit(3) == 8
    ensures Bit(4) == 16 && Bit(5) == 32 && Bit(6) == 64 && Bit(7) == 128
  {
    assert Bit(1) == 2 && Bit(2) == 4 && Bit(3) == 8;
    assert Bit(4) == 16 && Bit(5) == 32 && Bit(6) == 64;
  }

  /** The bit at `offset` of a byte is set or cleared. */
  function SetBit(c: Cell, offset: nat, on: bool): Cell {
    SetMask(c, Bit(offset), on)
  }

  /** The value that a color has as a pixel. */
  function Value(f: Format, color: Color): Cell {
    match f
    case RGB565 => (color & 0xffff) as bv16
    case GS4_HMSB => (color & 0x0f) as bv16
    case _ => if color != 0 then 1 else 0
  }

  predicate IsValue(f: Format, v: Cell) {
    match f
    case RGB565 => true
    case GS4_HMSB => v <= 0x0f
    case _ => v == 0 || v == 1
  }

  function GetCell(f: Format, sub: nat, c: Cell): Cell {
    match f
    case RGB565 => c
    case GS4_HMSB => if sub == 1 then c & 0x0f else U8(c) >> 4
    case _ => if c & Bit(sub) != 0 then 1 else 0
  }

  function PutCell(f: Format, sub: nat, c: Cell, v: Cell): Cell {
    match f
    case RGB565 => v
    case GS4_HMSB => if sub == 1 then v | (c & 0xf0) else U8(v << 4) | (c & 0x0f)
    case _ => SetBit(c, sub, v != 0)
  }

  lemma BitsAreDistinct(s: nat, t: nat)
    requires s < 8 && t < 8
    ensures s != t ==> Bit(s) & Bit(t) == 0
    ensures Bit(s) != 0 && Bit(s) & 0xff == Bit(s)
  {
    BitTable();
  }

  /** SetBit with the mask of the bit. */
  function SetMask(c: Cell, m: Cell, on: bool): Cell {
    (if on then (c & !m) | m else (c & !m) | 0) & 0xff
  }

  lemma MaskSame(c: Cell, m: Cell, on: bool)
    requires m & 0xff == m && m != 0
    ensures (SetMask(c, m, on) & m != 0) == on
  {
  }

  lemma MaskOther(c: Cell, m: Cell, n: Cell, on: bool)
    requires m & n == 0 && n & 0xff == n
    ensures SetMask(c, m, on) & n == c & n
  {
  }

  lemma Halves(c: Cell, v: Cell)
    requires v <= 0x0f
    ensures (v | (c & 0xf0)) & 0x0f == v && ((v | (c & 0xf0)) & 0xff) >> 4 == (c & 0xff) >> 4
    ensures ((((v << 4) & 0xff) | (c & 0x0f)) & 0xff) >> 4 == v && (((v << 4) & 0xff) | (c & 0x0f)) & 0x0f == c & 0x0f
  {
  }

  predicate IsSub(f: Format, s: nat) {
    s < match f case RGB565 => 1 case GS4_HMSB => 2 case _ => 8
  }

  lemma SameBit(s: nat, c: Cell, on: bool)
    requires s < 8
    ensures (SetBit(c, s, on) & Bit(s) != 0) == on
  {
    BitsAreDistinct(s, s);
    MaskSame(c, Bit(s), on);
  }

  lemma OtherBit(s: nat, t: nat, c: Cell, on: bool)
    requires s < 8 && t < 8 && s != t
    ensures SetBit(c, s, on) & Bit(t) == c & Bit(t)
  {
    BitsAreDistinct(s, t);
    BitsAreDistinct(t, t);
    MaskOther(c, Bit(s), Bit(t), on);
  }

  lemma MonoSame(f: Format, s: nat, c: Cell, v: Cell)
    requires IsMono(f) && s < 8 && (v == 0 || v == 1)
    ensures GetCell(f, s, PutCell(f, s, c, v)) == v
  {
    SameBit(s, c, v != 0);
  }

  lemma MonoOther(f: Format, s: nat, t: nat, c: Cell, v: Cell)
    requires IsMono(f) && s < 8 && t < 8 && s != t
    ensures GetCell(f, t, PutCell(f, s, c, v)) == GetCell(f, t, c)
  {
    OtherBit(s, t, c, v != 0);
  }

  lemma HalvesGetOfPut(s: nat, t: nat, c: Cell, v: Cell)
    requires s < 2 && t < 2 && v <= 0x0f
    ensures GetCell(GS4_HMSB, t, PutCell(GS4_HMSB, s, c, v)) == if s == t then v else GetCell(GS4_HMSB, t, c)
  {
    Halves(c, v);
  }

  /** A cell gives back what is put at a place in it, and what it had at the other places. */
  lemma GetOfPut(f: Format, s: nat, t: nat, c: Cell, v: Cell)
    requires IsSub(f, s) && IsSub(f, t) && IsValue(f, v)
    ensures GetCell(f, t, PutCell(f, s, c, v)) == if s == t then v else GetCell(f, t, c)
  {
    if f == GS4_HMSB {
      HalvesGetOfPut(s, t, c, v);
    } else if IsMono(f) {
      if s == t {
        MonoSame(f, s, c, v);
      } else {
        MonoOther(f, s, t, c, v);
      }
    }
  }

  /** Every place has a value, and a value is its own color. */
  lemma GetCellIsValue(f: Format, s: nat, c: Cell)
    ensures IsValue(f, GetCell(f, s, c))
  {
  }

  lemma ValueOfValue(f: Format, v: Cell)
    requires IsValue(f, v)
    ensures Value(f, v as bv32) == v
  {
  }

  lemma ValueIsValue(f: Format, color: Color)
    ensures IsValue(f, Value(f, color))
  {
  }

  // ---------- pictures ----------

  predicate Fits(g: Geometry, cells: seq<Cell>) {
    Legal(g) && Size(g) <= |cells|
  }

  /** What getpixel returns. */
  function Get(g: Geometry, cells: seq<Cell>, x: nat, y: nat): Cell
    requires Fits(g, cells) && InBounds(g, x, y)
  {
    IndexBound(g, x, y);
    GetCell(g.format, Sub(g.format, x, y), cells[Index(g, x, y)])
  }

  lemma GetIsValue(g: Geometry, cells: seq<Cell>, x: nat, y: nat)
    requires Fits(g, cells) && InBounds(g, x, y)
    ensures IsValue(g.format, Get(g, cells, x, y))
  {
    IndexBound(g, x, y);
    GetCellIsValue(g.format, Sub(g.format, x, y), cells[Index(g, x, y)]);
  }

  /** The buffer after a store to the place of a pixel. */
  function Put(g: Geometry, cells: seq<Cell>, x: nat, y: nat, v: Cell): (r: seq<Cell>)
    requires Fits(g, cells) && InBounds(g, x, y)
    ensures |r| == |cells|
  {
    IndexBound(g, x, y);
    var i := Index(g, x, y);
    cells[i := PutCell(g.format, Sub(g.format, x, y), cells[i], v)]
  }

  datatype Rect = Rect(x: int, y: int, w: int, h: int)

  predicate In(r: Rect, x: int, y: int) {
    r.x <= x < r.x + r.w && r.y <= y < r.y + r.h
  }

  /** The pixels of a rectangle have the value v, and all others the value they had. */
  ghost predicate Painted(g: Geometry, before: seq<Cell>, after: seq<Cell>, r: Rect, v: Cell) {
    && Fits(g, before) && |after| == |before|
    && forall x, y {:trigger Get(g, after, x, y)} | InBounds(g, x, y) ::
         Get(g, after, x, y) == if In(r, x, y) then v else Get(g, before, x, y)
  }

  /** A store to the place of a pixel paints that pixel. */
  lemma PutPaints(g: Geometry, cells: seq<Cell>, x: nat, y: nat, v: Cell)
    requires Fits(g, cells) && InBounds(g, x, y) && IsValue(g.format, v)
    ensures Painted(g, cells, Put(g, cells, x, y, v), Rect(x, y, 1, 1), v)
  {
    var after := Put(g, cells, x, y, v);
    forall x', y' | InBounds(g, x', y')
      ensures Get(g, after, x', y') == if x' == x && y' == y then v else Get(g, cells, x', y')
    {
      GetAfterPut(g, cells, x, y, v, x', y');
    }
  }

  lemma GetAfterPut(g: Geometry, cells: seq<Cell>, x: nat, y: nat, v: Cell, x': nat, y': nat)
    requires Fits(g, cells) && InBounds(g, x, y) && IsValue(g.format, v) && InBounds(g, x', y')
    ensures Get(g, Put(g, cells, x, y, v), x', y') == if x' == x && y' == y then v else Get(g, cells, x', y')
  {
    IndexBound(g, x, y);
    IndexBound(g, x', y');
    var i := Index(g, x, y);
    if i == Index(g, x', y') {
      GetOfPut(g.format, Sub(g.format, x, y), Sub(g.format, x', y'), cells[i], v);
      if Sub(g.format, x, y) == Sub(g.format, x', y') {
        PlacesAreDistinct(g, x, y, x', y');
      }
    }
  }

  lemma PaintedNothing(g: Geometry, cells: seq<Cell>, r: Rect, v: Cell)
    requires Fits(g, cells) && (r.w <= 0 || r.h <= 0)
    ensures Painted(g, cells, cells, r, v)
  {
  }

  lemma JoinRight(g: Geometry, a: seq<Cell>, b: seq<Cell>, c: seq<Cell>, r: Rect, w: nat, v: Cell)
    requires r.w >= 0 && Painted(g, a, b, r, v) && Painted(g, b, c, Rect(r.x + r.w, r.y, w, r.h), v)
    ensures Painted(g, a, c, r.(w := r.w + w), v)
  {
  }

  lemma JoinBelow(g: Geometry, a: seq<Cell>, b: seq<Cell>, c: seq<Cell>, r: Rect, h: nat, v: Cell)
    requires r.h >= 0 && Painted(g, a, b, r, v) && Painted(g, b, c, Rect(r.x, r.y + r.h, r.w, h), v)
    ensures Painted(g, a, c, r.(h := r.h + h), v)
  {
  }

  /** Of a rectangle, only what lies inside the picture matters. */
  lemma PaintedClip(g: Geometry, a: seq<Cell>, b: seq<Cell>, r: Rect, r': Rect, v: Cell)
    requires Painted(g, a, b, r', v)
    requires forall x, y {:trigger In(r', x, y)} | InBounds(g, x, y) :: In(r, x, y) == In(r', x, y)
    ensures Painted(g, a, b, r, v)
  {
  }

  // ---------- pairs of pixels ----------

  lemma BothHalves(v: Cell)
    requires v <= 0x0f
    ensures (U8(v << 4) | v) & 0x0f == v && U8(U8(v << 4) | v) >> 4 == v
  {
  }

  /** Without an even stride, GS4_HMSB has two pixels at one place, exactly if rows are adjacent. */
  lemma OddStrideOverlaps(width: nat, height: nat, stride: nat)
    requires stride >= width > 0
    ensures (forall x, y, x', y' {:trigger HalfPlace(stride, x, y), HalfPlace(stride, x', y')} |
               0 <= x < width && 0 <= y < height && 0 <= x' < width && 0 <= y' < height ::
               HalfPlace(stride, x, y) == HalfPlace(stride, x', y') ==> x == x' && y == y')
            <==> stride % 2 == 0 || width < stride || height <= 1
  {
    if stride % 2 == 1 && width == stride && height > 1 {
      assert HalfPlace(stride, stride - 1, 0) == HalfPlace(stride, 0, 1);
    } else {
      forall x: nat, y: nat, x': nat, y': nat | x < width && y < height && x' < width && y' < height
                          && HalfPlace(stride, x, y) == HalfPlace(stride, x', y')
        ensures x == x' && y == y'
      {
        if height > 1 {
          HalfPlacesAreDistinct(width, stride, x, y, x', y');
        }
      }
    }
  }

  /** Lines 137-153: the byte and the half. */
  function HalfPlace(stride: nat, x: nat, y: nat): (nat, nat) {
    ((x + RowStart(y, stride)) / 2, x % 2)
  }

  /** Equal halves of equal bytes: the linear positions are equal, as they differ by less than two and, row by
      row, by a multiple of the stride. */
  lemma HalfPlacesAreClose(stride: nat, x: nat, y: nat, x': nat, y': nat)
    requires HalfPlace(stride, x, y) == HalfPlace(stride, x', y')
    ensures -1 <= x + RowStart(y, stride) - (x' + RowStart(y', stride)) <= 1 && x % 2 == x' % 2
  {
  }

  lemma HalfPlacesAreDistinct(width: nat, stride: nat, x: nat, y: nat, x': nat, y': nat)
    requires x < width <= stride && x' < width && (stride % 2 == 0 || width < stride)
    requires HalfPlace(stride, x, y) == HalfPlace(stride, x', y')
    ensures x == x' && y == y'
  {
    HalfPlacesAreClose(stride, x, y, x', y');
    if y < y' {
      RowBelow(y, y', stride);
    } else if y' < y {
      RowBelow(y', y, stride);
    }
  }

  // ---------- scrolling ----------

  /** Each pixel whose source lies inside the picture has the value that its source had; the others keep theirs. */
  ghost predicate Scrolled(g: Geometry, before: seq<Cell>, after: seq<Cell>, xstep: int, ystep: int) {
    && Fits(g, before) && |after| == |before|
    && forall x, y {:trigger Get(g, after, x, y)} | InBounds(g, x, y) ::
         Get(g, after, x, y) ==
           if InBounds(g, x - xstep, y - ystep) then Get(g, before, x - xstep, y - ystep) else Get(g, before, x, y)
  }

  /** A loop of framebuf_scroll along one side of the picture: it meets its end after n steps, and until then both the
      pixel and its source lie inside. */
  ghost predicate LoopStays(size: nat, step: int) {
    exists n: nat :: LoopEnds(size, step, n) && forall k | 0 <= k < n :: VisitIsInside(size, step, k)
  }

  predicate LoopEnds(size: nat, step: int, n: nat) {
    if step < 0 then n == size + step else size - 1 - n == step - 1
  }

  predicate VisitIsInside(size: nat, step: int, k: nat) {
    var p := if step < 0 then k else size - 1 - k;
    0 <= p < size && 0 <= p - step < size
  }

  lemma LoopStaysIff(size: nat, step: int)
    ensures LoopStays(size, step) <==> -(size as int) <= step <= size
    ensures LoopStays(size, step) && LoopEnds(size, step, 0) <==> step == size || step == -(size as int)
  {
    if -(size as int) <= step <= size {
      var n: nat := size - Distance(step);
      assert LoopEnds(size, step, n) && forall k | 0 <= k < n :: VisitIsInside(size, step, k);
    }
  }

  function Distance(a: int): nat {
    if a < 0 then -a else a
  }

  /** So a scroll stays inside the picture exactly under this condition. */
  lemma CanScrollIff(g: Geometry, xstep: int, ystep: int)
    ensures g.CanScroll(xstep, ystep) <==>
            LoopStays(g.height, ystep) && (LoopEnds(g.height, ystep, 0) || LoopStays(g.width, xstep))
  {
    LoopStaysIff(g.height, ystep);
    LoopStaysIff(g.width, xstep);
  }

  /** The loops visit p before q. */
  predicate Earlier(p: int, q: int, step: int) {
    if step < 0 then p < q else p > q
  }

  /** All pixels before (x, y) are scrolled, and no others. */
  ghost predicate ScrolledTo(g: Geometry, before: seq<Cell>, after: seq<Cell>, xstep: int, ystep: int, x: int, y: int) {
    && Fits(g, before) && |after| == |before|
    && forall x', y' {:trigger Get(g, after, x', y')} | InBounds(g, x', y') ::
         Get(g, after, x', y') ==
           if (Earlier(y', y, ystep) || (y' == y && Earlier(x', x, xstep))) && InBounds(g, x' - xstep, y' - ystep)
           then Get(g, before, x' - xstep, y' - ystep) else Get(g, before, x', y')
  }

  /** The source of a pixel has not been overwritten when its turn comes. */
  lemma ScrollPixel(g: Geometry, before: seq<Cell>, now: seq<Cell>, after: seq<Cell>, xstep: int, ystep: int, x: int, y: int)
    requires ScrolledTo(g, before, now, xstep, ystep, x, y)
    requires InBounds(g, x, y) && InBounds(g, x - xstep, y - ystep)
    requires Painted(g, now, after, Rect(x, y, 1, 1), Get(g, now, x - xstep, y - ystep))
    ensures ScrolledTo(g, before, after, xstep, ystep, x + (if xstep < 0 then 1 else -1), y)
  {
  }

  lemma ScrollRowEnds(g: Geometry, before: seq<Cell>, after: seq<Cell>, xstep: int, ystep: int, y: int)
    requires ScrolledTo(g, before, after, xstep, ystep, if xstep < 0 then g.width + xstep else xstep - 1, y)
    ensures ScrolledTo(g, before, after, xstep, ystep,
              if xstep < 0 then 0 else g.width - 1, y + if ystep < 0 then 1 else -1)
  {
  }

  lemma ScrollEnds(g: Geometry, before: seq<Cell>, after: seq<Cell>, xstep: int, ystep: int)
    requires ScrolledTo(g, before, after, xstep, ystep,
               if xstep < 0 then 0 else g.width - 1, if ystep < 0 then g.height + ystep else ystep - 1)
    ensures Scrolled(g, before, after, xstep, ystep)
  {
  }
}
