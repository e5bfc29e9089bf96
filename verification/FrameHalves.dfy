/** extmod/modframebuf.c:137-184: the halves of bytes that GS4_HMSB keeps its pixels in, numbered through the buffer, for
    every stride: which of them setpixel stores to, and which the filling loop. */
module FrameHalves {
  import opened FramePixels

  /** Half n of a buffer: the high one of byte n / 2 for an even n. */
  function Half(cells: seq<Cell>, n: nat): Cell
    requires n < 2 * |cells|
  {
    if n % 2 == 0 then U8(cells[n / 2]) >> 4 else cells[n / 2] & 0x0f
  }

  /** Lines 138-144: the half that a pixel is stored in. */
  function HalfOf(stride: nat, x: nat, y: nat): nat {
    2 * HalfPlace(stride, x, y).0 + HalfPlace(stride, x, y).1
  }

  /** The halves of the pixels of a rectangle. */
  ghost predicate PixelsHave(stride: nat, x: nat, y: nat, w: nat, h: nat, n: nat) {
    exists px, py | x <= px < x + w && y <= py < y + h :: HalfOf(stride, px, py) == n
  }

  /** How many halves the pointer moves on from row to row: lines 160 and 164-182. */
  function Step(stride: nat, w: nat): int {
    if stride % 2 == 0 then stride else if w % 2 == 0 then stride - 1 else stride + 1
  }

  /** The first half that the filling loop stores to in row j. */
  function RowHalf(first: nat, step: nat, j: nat): nat {
    first + RowStart(j, step)
  }

  /** The halves that it stores to: w of them in each of h rows. */
  ghost predicate Fills(first: nat, step: nat, w: nat, h: nat, n: nat) {
    exists j | 0 <= j < h :: RowHalf(first, step, j) <= n < RowHalf(first, step, j) + w
  }

  // ---------- stores ----------

  /** The w halves from `first` on have the value v, and the others keep theirs. */
  ghost predicate HalvesSet(before: seq<Cell>, after: seq<Cell>, first: int, w: int, v: Cell) {
    && |after| == |before|
    && forall n: nat {:trigger Half(after, n)} | n < 2 * |before| ::
         Half(after, n) == if first <= n < first + w then v else Half(before, n)
  }

  /** The same for all rows of the filling loop. */
  ghost predicate HalvesFilled(before: seq<Cell>, after: seq<Cell>, first: nat, step: nat, w: nat, h: nat, v: Cell) {
    && |after| == |before|
    && forall n: nat {:trigger Half(after, n)} | n < 2 * |before| ::
         Half(after, n) == if Fills(first, step, w, h, n) then v else Half(before, n)
  }

  lemma NothingSet(cells: seq<Cell>, first: int, v: Cell)
    ensures HalvesSet(cells, cells, first, 0, v)
  {
  }

  lemma SetMore(a: seq<Cell>, b: seq<Cell>, c: seq<Cell>, first: int, w: int, w': int, v: Cell)
    requires w >= 0 && w' >= 0 && HalvesSet(a, b, first, w, v) && HalvesSet(b, c, first + w, w', v)
    ensures HalvesSet(a, c, first, w + w', v)
  {
  }

  lemma NothingFilled(cells: seq<Cell>, first: nat, step: nat, w: nat, v: Cell)
    ensures HalvesFilled(cells, cells, first, step, w, 0, v)
  {
  }

  lemma FilledMore(a: seq<Cell>, b: seq<Cell>, c: seq<Cell>, first: nat, step: nat, w: nat, j: nat, v: Cell)
    requires HalvesFilled(a, b, first, step, w, j, v) && HalvesSet(b, c, RowHalf(first, step, j), w, v)
    ensures HalvesFilled(a, c, first, step, w, j + 1, v)
  {
    forall n: nat | n < 2 * |a|
      ensures Half(c, n) == if Fills(first, step, w, j + 1, n) then v else Half(a, n)
    {
      FillsMore(first, step, w, j, n);
      assert Half(b, n) == if Fills(first, step, w, j, n) then v else Half(a, n);
    }
  }

  lemma FillsMore(first: nat, step: nat, w: nat, j: nat, n: nat)
    ensures Fills(first, step, w, j + 1, n) <==>
            Fills(first, step, w, j, n) || RowHalf(first, step, j) <= n < RowHalf(first, step, j) + w
  {
  }

  lemma RowHalfMonotone(first: nat, step: nat, j: nat, h: nat)
    requires j < h
    ensures RowHalf(first, step, j) <= RowHalf(first, step, h - 1)
  {
    if j < h - 1 {
      RowBelow(j, h - 1, step);
    }
  }

  /** Lines 160 and 164-182: the pointer moves on by one step, in each of the four cases of odd and even x and w. */
  lemma PointerStep(stride: nat, x: nat, w: nat, p0: nat, p: nat)
    requires w <= stride
    requires p == p0 + if x % 2 == 0 then (w + 1) / 2 else if w == 0 then 0 else 1 + (w - 1) / 2
    ensures 2 * (p + (stride - w) / 2) + x % 2 == 2 * p0 + x % 2 + Step(stride, w)
  {
  }

  /** One cell changes. */
  lemma CellSets(before: seq<Cell>, p: nat, c: Cell, first: int, w: int, v: Cell)
    requires p < |before| && 2 * p <= first && first + w <= 2 * p + 2
    requires U8(c) >> 4 == (if first <= 2 * p < first + w then v else U8(before[p]) >> 4)
    requires c & 0x0f == (if first <= 2 * p + 1 < first + w then v else before[p] & 0x0f)
    ensures HalvesSet(before, before[p := c], first, w, v)
  {
  }

  lemma PairsSet(before: seq<Cell>, after: seq<Cell>, p: nat, n: nat, v: Cell)
    requires v <= 0x0f && |after| == |before|
    requires forall i | 0 <= i < |before| :: after[i] == if p <= i < p + n then U8(v << 4) | v else before[i]
    ensures HalvesSet(before, after, 2 * p, 2 * n, v)
  {
    BothHalves(v);
  }

  // ---------- pictures with an even stride ----------

  lemma GetIsHalf(g: Geometry, cells: seq<Cell>, x: nat, y: nat)
    requires g.format == GS4_HMSB && Fits(g, cells) && InBounds(g, x, y)
    ensures HalfOf(g.stride, x, y) < 2 * |cells| && Get(g, cells, x, y) == Half(cells, HalfOf(g.stride, x, y))
  {
    IndexBound(g, x, y);
    RowStartHalves(y, g.stride);
    assert Index(g, x, y) == HalfPlace(g.stride, x, y).0;
  }

  lemma {:induction false} RowStartHalves(r: nat, pitch: nat)
    requires pitch % 2 == 0
    ensures RowStart(r, pitch) == 2 * RowStart(r, pitch / 2)
  {
    if r > 0 {
      RowStartHalves(r - 1, pitch);
    }
  }

  /** In a legal layout the filling loop paints its rectangle. */
  lemma FilledIsPainted(g: Geometry, before: seq<Cell>, after: seq<Cell>, x: nat, y: nat, w: nat, h: nat, v: Cell)
    requires g.format == GS4_HMSB && Fits(g, before) && x + w <= g.width && y + h <= g.height
    requires HalvesFilled(before, after, HalfOf(g.stride, x, y), g.stride, w, h, v)
    ensures Painted(g, before, after, Rect(x, y, w, h), v)
  {
    forall px, py | InBounds(g, px, py)
      ensures Get(g, after, px, py) == if In(Rect(x, y, w, h), px, py) then v else Get(g, before, px, py)
    {
      GetIsHalf(g, before, px, py);
      GetIsHalf(g, after, px, py);
      var n := HalfOf(g.stride, px, py);
      EvenStrideFills(g.stride, x, y, w, h, n);
      OnlyItsPixels(g, x, y, w, h, px, py);
      assert Half(after, n) == if Fills(HalfOf(g.stride, x, y), g.stride, w, h, n) then v else Half(before, n);
    }
  }

  lemma LastHalf(g: Geometry, cells: seq<Cell>, x: nat, y: nat, w: nat, h: nat)
    requires g.format == GS4_HMSB && Fits(g, cells) && w > 0 && h > 0 && x + w <= g.width && y + h <= g.height
    ensures RowHalf(HalfOf(g.stride, x, y), g.stride, h - 1) + w <= 2 * |cells|
  {
    GetIsHalf(g, cells, x + w - 1, y + h - 1);
    HalfIs(g.stride, x, y);
    HalfIs(g.stride, x + w - 1, y + h - 1);
    RowStartSum(y, h - 1, g.stride);
  }

  lemma OnlyItsPixels(g: Geometry, x: nat, y: nat, w: nat, h: nat, px: nat, py: nat)
    requires Legal(g) && g.format == GS4_HMSB && x + w <= g.width && y + h <= g.height && InBounds(g, px, py)
    ensures PixelsHave(g.stride, x, y, w, h, HalfOf(g.stride, px, py)) <==> In(Rect(x, y, w, h), px, py)
  {
    var n := HalfOf(g.stride, px, py);
    if In(Rect(x, y, w, h), px, py) {
      assert x <= px < x + w && y <= py < y + h && HalfOf(g.stride, px, py) == n;
    } else if PixelsHave(g.stride, x, y, w, h, n) {
      var qx, qy :| x <= qx < x + w && y <= qy < y + h && HalfOf(g.stride, qx, qy) == n;
      SameHalfSamePlace(g.stride, px, py, qx, qy);
      HalfPlacesAreDistinct(g.width, g.stride, px, py, qx, qy);
    }
  }

  lemma SameHalfSamePlace(stride: nat, x: nat, y: nat, x': nat, y': nat)
    requires HalfOf(stride, x, y) == HalfOf(stride, x', y')
    ensures HalfPlace(stride, x, y) == HalfPlace(stride, x', y')
  {
  }

  // ---------- when both are the same ----------

  /** The filling loop stores to the halves of the pixels of its rectangle, and to no others. */
  ghost predicate FillsPixels(stride: nat, x: nat, y: nat, w: nat, h: nat)
    requires w <= stride
  {
    w == 0 || forall n: nat :: Fills(HalfOf(stride, x, y), Step(stride, w), w, h, n) <==> PixelsHave(stride, x, y, w, h, n)
  }

  /** The strides and rectangles for which that is so. */
  predicate FillWorks(stride: nat, x: nat, y: nat, w: nat, h: nat) {
    || stride % 2 == 0 || w == 0 || h == 0
    || (h == 1 && (w == 1 || y % 2 == 0))
    || (h == 2 && w == 1 && (x + y) % 2 == 1)
  }

  lemma {:induction false} RowStartParity(r: nat, pitch: nat)
    ensures RowStart(r, pitch) % 2 == if pitch % 2 == 0 then 0 else r % 2
  {
    if r > 0 {
      RowStartParity(r - 1, pitch);
    }
  }

  lemma {:induction false} RowStartSum(a: nat, b: nat, pitch: nat)
    ensures RowStart(a + b, pitch) == RowStart(a, pitch) + RowStart(b, pitch)
  {
    if b > 0 {
      RowStartSum(a, b - 1, pitch);
    }
  }

  lemma {:induction false} RowStartMore(r: nat, pitch: nat)
    ensures RowStart(r, pitch + 1) == RowStart(r, pitch) + r
  {
    if r > 0 {
      RowStartMore(r - 1, pitch);
    }
  }

  /** In a row that starts in the middle of a byte, the two pixels of each pair change places and lie apart. */
  lemma HalfIs(stride: nat, x: nat, y: nat)
    ensures HalfOf(stride, x, y) ==
            var n := x + RowStart(y, stride);
            if stride % 2 == 0 || y % 2 == 0 then n else if x % 2 == 0 then n - 1 else n + 1
  {
    RowStartParity(y, stride);
  }

  /** Even rows: w halves from the one of the first pixel on. */
  lemma RowOfPixels(stride: nat, x: nat, y: nat, w: nat, n: nat)
    requires stride % 2 == 0 || y % 2 == 0
    ensures HalfOf(stride, x, y) <= n < HalfOf(stride, x, y) + w <==> PixelsHave(stride, x, y, w, 1, n)
  {
    HalfIs(stride, x, y);
    if HalfOf(stride, x, y) <= n < HalfOf(stride, x, y) + w {
      var px := x + (n - HalfOf(stride, x, y));
      HalfIs(stride, px, y);
      assert HalfOf(stride, px, y) == n;
    }
    if PixelsHave(stride, x, y, w, 1, n) {
      var px, py :| x <= px < x + w && y <= py < y + 1 && HalfOf(stride, px, py) == n;
      HalfIs(stride, px, y);
    }
  }

  lemma EvenStrideFills(stride: nat, x: nat, y: nat, w: nat, h: nat, n: nat)
    requires stride % 2 == 0
    ensures Fills(HalfOf(stride, x, y), stride, w, h, n) <==> PixelsHave(stride, x, y, w, h, n)
  {
    var first := HalfOf(stride, x, y);
    forall j: nat | j < h ensures RowHalf(first, stride, j) == HalfOf(stride, x, y + j) {
      RowStartSum(y, j, stride);
      HalfIs(stride, x, y);
      HalfIs(stride, x, y + j);
    }
    if Fills(first, stride, w, h, n) {
      var j :| 0 <= j < h && RowHalf(first, stride, j) <= n < RowHalf(first, stride, j) + w;
      RowOfPixels(stride, x, y + j, w, n);
      var px, py :| x <= px < x + w && y + j <= py < y + j + 1 && HalfOf(stride, px, py) == n;
      assert y <= py < y + h;
    }
    if PixelsHave(stride, x, y, w, h, n) {
      var px, py :| x <= px < x + w && y <= py < y + h && HalfOf(stride, px, py) == n;
      assert PixelsHave(stride, x, py, w, 1, n);
      RowOfPixels(stride, x, py, w, n);
      assert RowHalf(first, stride, py - y) <= n;
    }
  }

  lemma OneRowFills(stride: nat, x: nat, y: nat, w: nat, n: nat)
    requires w == 1 || y % 2 == 0
    ensures Fills(HalfOf(stride, x, y), Step(stride, w), w, 1, n) <==> PixelsHave(stride, x, y, w, 1, n)
  {
    var first, step := HalfOf(stride, x, y), Step(stride, w);
    assert RowHalf(first, step, 0) == first;
    if y % 2 == 0 {
      RowOfPixels(stride, x, y, w, n);
    } else {
      OnePixel(stride, x, y, n);
    }
    assert Fills(first, step, w, 1, n) <==> first <= n < first + w;
  }

  lemma OnePixel(stride: nat, x: nat, y: nat, n: nat)
    ensures PixelsHave(stride, x, y, 1, 1, n) <==> n == HalfOf(stride, x, y)
  {
    if n == HalfOf(stride, x, y) {
      assert x <= x < x + 1 && y <= y < y + 1 && HalfOf(stride, x, y) == n;
    }
  }

  lemma TwoPixelsFill(stride: nat, x: nat, y: nat, n: nat)
    requires stride % 2 == 1 && (x + y) % 2 == 1
    ensures Fills(HalfOf(stride, x, y), stride + 1, 1, 2, n) <==> PixelsHave(stride, x, y, 1, 2, n)
  {
    var first, step := HalfOf(stride, x, y), stride + 1;
    HalfIs(stride, x, y);
    HalfIs(stride, x, y + 1);
    assert RowHalf(first, step, 0) == first && RowStart(1, step) == step;
    assert RowHalf(first, step, 1) == HalfOf(stride, x, y + 1);
    if n == HalfOf(stride, x, y + 1) {
      assert Fills(first, step, 1, 2, n);
      assert PixelsHave(stride, x, y, 1, 2, n);
    }
  }

  // ---------- a half that tells them apart ----------

  /** A half in one set and not in the other. */
  ghost predicate Differ(stride: nat, x: nat, y: nat, w: nat, h: nat, n: nat)
    requires 0 < w <= stride
  {
    Fills(HalfOf(stride, x, y), Step(stride, w), w, h, n) != PixelsHave(stride, x, y, w, h, n)
  }

  /** Where the pixels of a row can be: the rows behind it start later by whole strides. */
  lemma RowsBehind(stride: nat, y: nat, py: nat)
    requires y <= py
    ensures py >= y + 1 ==> RowStart(py, stride) >= RowStart(y, stride) + stride
    ensures py >= y + 2 ==> RowStart(py, stride) >= RowStart(y, stride) + 2 * stride
    ensures py == y + 1 ==> RowStart(py, stride) == RowStart(y, stride) + stride
  {
    RowStartSum(y, py - y, stride);
    if py >= y + 2 {
      RowBelow(1, py - y, stride);
      assert RowStart(1, stride) == stride;
    } else if py == y + 1 {
      assert RowStart(1, stride) == stride;
    }
  }

  lemma FillsRow(first: nat, step: nat, w: nat, h: nat, j: nat, n: nat)
    requires j < h && RowHalf(first, step, j) <= n < RowHalf(first, step, j) + w
    ensures Fills(first, step, w, h, n)
  {
  }

  /** The first row starts in the middle of a byte: the loop fills the second half of that byte, which belongs to no
      pixel of the rectangle; or, from an odd column on, leaves out the half of the second pixel. */
  lemma OddRowDiffers(stride: nat, x: nat, y: nat, w: nat, h: nat) returns (n: nat)
    requires stride % 2 == 1 && 2 <= w <= stride && h > 0 && y % 2 == 1
    ensures Differ(stride, x, y, w, h, n)
  {
    var first, step, r := HalfOf(stride, x, y), Step(stride, w), RowStart(y, stride);
    HalfIs(stride, x, y);
    HalfIs(stride, x + 1, y);
    n := x + r;
    if x % 2 == 0 {
      assert RowHalf(first, step, 0) == first;
      FillsRow(first, step, w, h, 0, n);
      forall px, py | x <= px < x + w && y <= py < y + h ensures HalfOf(stride, px, py) != n {
        HalfIs(stride, px, py);
        RowsBehind(stride, y, py);
      }
    } else {
      assert HalfOf(stride, x + 1, y) == n;
      assert PixelsHave(stride, x, y, w, h, n);
    }
  }

  /** The second row does: for an even width the loop fills a half that belongs to no pixel. */
  lemma SecondRowDiffersEven(stride: nat, x: nat, y: nat, w: nat, h: nat) returns (n: nat)
    requires stride % 2 == 1 && 2 <= w <= stride && h >= 2 && y % 2 == 0 && w % 2 == 0
    ensures Differ(stride, x, y, w, h, n)
  {
    var first, step, r := HalfOf(stride, x, y), stride - 1, RowStart(y, stride);
    HalfIs(stride, x, y);
    n := x + r + stride - x % 2;
    assert RowStart(1, step) == step;
    FillsRow(first, step, w, h, 1, n);
    forall px, py | x <= px < x + w && y <= py < y + h ensures HalfOf(stride, px, py) != n {
      HalfIs(stride, px, py);
      RowsBehind(stride, y, py);
    }
  }

  /** For an odd width and column it leaves out the half of a pixel. */
  lemma SecondRowDiffersOdd(stride: nat, x: nat, y: nat, w: nat, h: nat) returns (n: nat)
    requires stride % 2 == 1 && 2 <= w <= stride && h >= 2 && y % 2 == 0 && w % 2 == 1 && x % 2 == 1
    ensures Differ(stride, x, y, w, h, n)
  {
    var first, step, r := HalfOf(stride, x, y), stride + 1, RowStart(y, stride);
    HalfIs(stride, x, y);
    HalfIs(stride, x + 1, y + 1);
    RowsBehind(stride, y, y + 1);
    n := x + r + stride;
    assert HalfOf(stride, x + 1, y + 1) == n;
    assert PixelsHave(stride, x, y, w, h, n);
    forall j: nat | j < h ensures !(RowHalf(first, step, j) <= n < RowHalf(first, step, j) + w) {
      if j > 0 {
        RowBelow(0, j, step);
      }
    }
  }

  /** Otherwise the loop has moved on too far in the last row: it fills a half behind all pixels. */
  lemma LastRowDiffers(stride: nat, x: nat, y: nat, w: nat, h: nat) returns (n: nat)
    requires stride % 2 == 1 && 0 < w <= stride && h >= 2 && w % 2 == 1
    requires if w == 1 then !(h == 2 && (x + y) % 2 == 1) else x % 2 == 0 && y % 2 == 0
    ensures Differ(stride, x, y, w, h, n)
  {
    var first, step := HalfOf(stride, x, y), stride + 1;
    n := RowHalf(first, step, h - 1) + w - 1;
    FillsRow(first, step, w, h, h - 1, n);
    forall px: nat, py: nat | x <= px < x + w && y <= py < y + h ensures HalfOf(stride, px, py) != n {
      PixelBeforeLast(stride, x, y, w, h, px, py);
    }
  }

  lemma PixelBeforeLast(stride: nat, x: nat, y: nat, w: nat, h: nat, px: nat, py: nat)
    requires stride % 2 == 1 && 0 < w <= stride && h >= 2 && w % 2 == 1
    requires if w == 1 then !(h == 2 && (x + y) % 2 == 1) else x % 2 == 0 && y % 2 == 0
    requires x <= px < x + w && y <= py < y + h
    ensures HalfOf(stride, px, py) < RowHalf(HalfOf(stride, x, y), stride + 1, h - 1) + w - 1
  {
    HalfIs(stride, x, y);
    HalfIs(stride, px, py);
    RowStartMore(h - 1, stride);
    LastRowIsLast(stride, y, py, h);
  }

  lemma LastRowIsLast(stride: nat, y: nat, py: nat, h: nat)
    requires y <= py < y + h && stride > 0
    ensures RowStart(py, stride) + (if py < y + h - 1 then stride else 0) <= RowStart(y, stride) + RowStart(h - 1, stride)
  {
    RowStartSum(y, h - 1, stride);
    if py < y + h - 1 {
      RowBelow(py, y + h - 1, stride);
    }
  }

  /** The filling loop of GS4_HMSB fills the pixels of its rectangle exactly for an even stride, and for an odd one in
      these few cases. */
  lemma FillWorksIff(stride: nat, x: nat, y: nat, w: nat, h: nat)
    requires w <= stride
    ensures FillsPixels(stride, x, y, w, h) <==> FillWorks(stride, x, y, w, h)
  {
    if FillWorks(stride, x, y, w, h) {
      forall n: nat | w > 0
        ensures Fills(HalfOf(stride, x, y), Step(stride, w), w, h, n) <==> PixelsHave(stride, x, y, w, h, n)
      {
        if stride % 2 == 0 {
          EvenStrideFills(stride, x, y, w, h, n);
        } else if h == 1 {
          OneRowFills(stride, x, y, w, n);
        } else if h == 2 {
          TwoPixelsFill(stride, x, y, n);
        }
      }
    } else {
      var n;
      if w >= 2 && y % 2 == 1 {
        n := OddRowDiffers(stride, x, y, w, h);
      } else if w % 2 == 0 {
        n := SecondRowDiffersEven(stride, x, y, w, h);
      } else if w >= 2 && x % 2 == 1 {
        n := SecondRowDiffersOdd(stride, x, y, w, h);
      } else {
        n := LastRowDiffers(stride, x, y, w, h);
      }
      assert Differ(stride, x, y, w, h, n);
    }
  }
}
