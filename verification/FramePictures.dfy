/** extmod/modframebuf.c: what filling, scrolling and drawing a line do to a single pixel. */
module FramePictures {
  import opened FramePixels
  import opened FrameLine

  // ---------- filling ----------

  /** Pixel (i, j) of the rectangle, counted from its corner, has the value. */
  lemma FilledPixel(g: Geometry, before: seq<Cell>, after: seq<Cell>, r: Rect, v: Cell, i: nat, j: nat)
    requires Painted(g, before, after, r, v) && i < r.w && j < r.h
    requires 0 <= r.x + i < g.width && 0 <= r.y + j < g.height
    ensures Get(g, after, r.x + i, r.y + j) == v
  {
  }

  /** Left or right of it, above or below, nothing changes. */
  lemma OutsidePixel(g: Geometry, before: seq<Cell>, after: seq<Cell>, r: Rect, v: Cell, x: nat, y: nat)
    requires Painted(g, before, after, r, v) && x < g.width && y < g.height
    requires x < r.x || r.x + r.w <= x || y < r.y || r.y + r.h <= y
    ensures Get(g, after, x, y) == Get(g, before, x, y)
  {
  }

  // ---------- scrolling ----------

  /** A pixel moves by the offset, if it stays inside the picture. */
  lemma MovedPixel(g: Geometry, before: seq<Cell>, after: seq<Cell>, xstep: int, ystep: int, x: nat, y: nat)
    requires Scrolled(g, before, after, xstep, ystep) && x < g.width && y < g.height
    requires 0 <= x + xstep < g.width && 0 <= y + ystep < g.height
    ensures Get(g, after, x + xstep, y + ystep) == Get(g, before, x, y)
  {
  }

  /** In the strips where nothing moves to, the old pixels stay. */
  lemma StripPixel(g: Geometry, before: seq<Cell>, after: seq<Cell>, xstep: int, ystep: int, x: nat, y: nat)
    requires Scrolled(g, before, after, xstep, ystep) && x < g.width && y < g.height
    requires x < xstep || g.width + xstep <= x || y < ystep || g.height + ystep <= y
    ensures Get(g, after, x, y) == Get(g, before, x, y)
  {
  }

  /** Scrolling there and back restores the pixels that did not leave the picture. */
  lemma ScrolledBack(g: Geometry, a: seq<Cell>, b: seq<Cell>, c: seq<Cell>, xstep: int, ystep: int, x: nat, y: nat)
    requires Scrolled(g, a, b, xstep, ystep) && Scrolled(g, b, c, -xstep, -ystep) && x < g.width && y < g.height
    requires 0 <= x + xstep < g.width && 0 <= y + ystep < g.height
    ensures Get(g, c, x, y) == Get(g, a, x, y)
  {
    MovedPixel(g, a, b, xstep, ystep, x, y);
    MovedPixel(g, b, c, -xstep, -ystep, x + xstep, y + ystep);
  }

  // ---------- lines ----------

  /** Both ends of a line are drawn, if they lie inside the picture. */
  lemma EndsAreDrawn(g: Geometry, before: seq<Cell>, after: seq<Cell>, l: Line, v: Cell)
    requires Drawn(g, before, after, l, Steps(l) + 1, v)
    ensures 0 <= l.x1 < g.width && 0 <= l.y1 < g.height ==> Get(g, after, l.x1, l.y1) == v
    ensures 0 <= l.x2 < g.width && 0 <= l.y2 < g.height ==> Get(g, after, l.x2, l.y2) == v
  {
    EndPoints(l);
    assert OnLine(l, Steps(l) + 1, l.x1, l.y1) && OnLine(l, Steps(l) + 1, l.x2, l.y2);
  }

  /** And so is each point between them. */
  lemma PointIsDrawn(g: Geometry, before: seq<Cell>, after: seq<Cell>, l: Line, v: Cell, i: nat)
    requires Drawn(g, before, after, l, Steps(l) + 1, v) && i <= Steps(l)
    requires var (x, y) := PointAt(l, i); 0 <= x < g.width && 0 <= y < g.height
    ensures var (x, y) := PointAt(l, i); Get(g, after, x, y) == v
  {
    var (x, y) := PointAt(l, i);
    assert OnLine(l, Steps(l) + 1, x, y);
  }

  /** All other pixels stay. */
  lemma OffLinePixel(g: Geometry, before: seq<Cell>, after: seq<Cell>, l: Line, v: Cell, x: nat, y: nat)
    requires Drawn(g, before, after, l, Steps(l) + 1, v) && x < g.width && y < g.height
    requires forall i | 0 <= i <= Steps(l) :: PointAt(l, i) != (x, y)
    ensures Get(g, after, x, y) == Get(g, before, x, y)
  {
  }
}
