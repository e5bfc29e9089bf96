/** extmod/modframebuf.c:353-416: the points that a line consists of. */
module FrameLine {
  import opened FramePixels

  datatype Line = Line(x1: int, y1: int, x2: int, y2: int)

  function Abs(a: int): nat {
    if a < 0 then -a else a
  }

  /** Lines 363-379: i steps from a towards a + d, and downwards if d is zero. */
  function Along(a: int, d: int, i: nat): int {
    if d > 0 then a + i else a - i
  }

  function Dx(l: Line): nat { Abs(l.x2 - l.x1) }

  function Dy(l: Line): nat { Abs(l.y2 - l.y1) }

  function Steep(l: Line): bool { Dy(l) > Dx(l) }

  /** How far the line goes along the minor axis. */
  function MinorSpan(l: Line): nat {
    if Steep(l) then Dx(l) else Dy(l)
  }

  /** The number of steps: those along the major axis. */
  function Steps(l: Line): nat {
    if Steep(l) then Dy(l) else Dx(l)
  }

  /** The minor offset after i of n major steps, of m in all: m * i / n, rounded to the nearest, halves up. */
  function Minor(n: nat, m: nat, i: nat): nat {
    if n == 0 then 0 else (2 * RowStart(i, m) + n) / (2 * n)
  }

  /** The i-th point. */
  function PointAt(l: Line, i: nat): (int, int) {
    if Steep(l) then (Along(l.x1, l.x2 - l.x1, Minor(Dy(l), Dx(l), i)), Along(l.y1, l.y2 - l.y1, i))
    else (Along(l.x1, l.x2 - l.x1, i), Along(l.y1, l.y2 - l.y1, Minor(Dx(l), Dy(l), i)))
  }

  lemma MultipleBelow(d: nat, t: int)
    requires -(d as int) < d * t < d
    ensures t == 0
  {
  }

  lemma QuotientIff(a: nat, d: nat, q: nat)
    requires d > 0
    ensures a / d == q <==> d * q <= a < d * q + d
  {
    var r := a / d;
    assert a == d * r + a % d;
    if d * q <= a < d * q + d {
      assert d * (r - q) == d * r - d * q;
      MultipleBelow(d, r - q);
    }
  }

  /** What the quotient means, without a division. */
  lemma MinorIff(n: nat, m: nat, i: nat, k: nat)
    requires n > 0
    ensures Minor(n, m, i) == k <==> 2 * RowStart(k, n) <= 2 * RowStart(i, m) + n < 2 * RowStart(k, n) + 2 * n
  {
    DoubleProduct(n, k);
    QuotientIff(2 * RowStart(i, m) + n, 2 * n, k);
  }

  lemma DoubleProduct(n: nat, k: nat)
    ensures (2 * n) * k == 2 * RowStart(k, n)
  {
    RowStartIsProduct(k, n);
  }

  /** Each point is as near to the ideal line as a pixel can be: within half a pixel along the minor axis. */
  lemma WithinHalfAPixel(n: nat, m: nat, i: nat)
    requires n > 0
    ensures Minor(n, m, i) == (2 * (m * i) + n) / (2 * n)
    ensures -(n as int) < 2 * (n * Minor(n, m, i)) - 2 * (m * i) <= n
  {
    var k := Minor(n, m, i);
    MinorIff(n, m, i, k);
    RowStartIsProduct(i, m);
    RowStartIsProduct(k, n);
  }

  /** From one major step to the next, the minor offset grows by at most one, and it ends at m. */
  lemma MinorSteps(n: nat, m: nat, i: nat)
    requires n > 0 && m <= n
    ensures Minor(n, m, 0) == 0 && Minor(n, m, n) == m
    ensures Minor(n, m, i) <= Minor(n, m, i + 1) <= Minor(n, m, i) + 1
  {
    MinorIff(n, m, 0, 0);
    RowStartIsProduct(n, m);
    RowStartIsProduct(m, n);
    MinorIff(n, m, n, m);
    MinorNext(n, m, i, Minor(n, m, i));
  }

  /** The error accumulator at step i, with the offset k. */
  function Error(n: nat, m: nat, i: nat, k: nat): int {
    2 * RowStart(i, m) + 2 * m - n - 2 * RowStart(k, n)
  }

  /** The step that it decides: the next offset is one more exactly if the error is not negative. */
  lemma MinorNext(n: nat, m: nat, i: nat, k: nat)
    requires n > 0 && m <= n && Minor(n, m, i) == k
    ensures Error(n, m, i, k) < 2 * n
    ensures Minor(n, m, i + 1) == if Error(n, m, i, k) >= 0 then k + 1 else k
  {
    MinorIff(n, m, i, k);
    MinorIff(n, m, i + 1, if Error(n, m, i, k) >= 0 then k + 1 else k);
  }

  /** The first and the last point are the ends of the line. */
  lemma EndPoints(l: Line)
    ensures PointAt(l, 0) == (l.x1, l.y1) && PointAt(l, Steps(l)) == (l.x2, l.y2)
  {
    if Steps(l) > 0 {
      MinorSteps(Steps(l), MinorSpan(l), 0);
    }
  }

  /** Points that follow each other are neighbours, and no step along the major axis is left out or taken twice. */
  lemma PointsAreConnected(l: Line, i: nat)
    requires i < Steps(l)
    ensures var ((x, y), (x', y')) := (PointAt(l, i), PointAt(l, i + 1));
            && Abs(x' - x) <= 1 && Abs(y' - y) <= 1
            && (if Steep(l) then y' == Along(y, l.y2 - l.y1, 1) else x' == Along(x, l.x2 - l.x1, 1))
  {
    MinorSteps(Steps(l), MinorSpan(l), i);
  }

  /** The variables of the loop at step i: the major and minor coordinates and the error. */
  predicate AtStep(l: Line, i: nat, x1: int, y1: int, e: int) {
    && PointAt(l, i) == (if Steep(l) then (y1, x1) else (x1, y1))
    && e == Error(Steps(l), MinorSpan(l), i, Minor(Steps(l), MinorSpan(l), i))
  }

  lemma AtStart(l: Line)
    ensures var (x, y) := if Steep(l) then (l.y1, l.x1) else (l.x1, l.y1);
            AtStep(l, 0, x, y, 2 * MinorSpan(l) - Steps(l))
  {
    EndPoints(l);
    if Steps(l) > 0 {
      MinorSteps(Steps(l), MinorSpan(l), 0);
    }
  }

  /** The steps along the two axes: one, or minus one. */
  function MajorStep(l: Line): int {
    Along(0, if Steep(l) then l.y2 - l.y1 else l.x2 - l.x1, 1)
  }

  function MinorStep(l: Line): int {
    Along(0, if Steep(l) then l.x2 - l.x1 else l.y2 - l.y1, 1)
  }

  lemma NextStep(l: Line, i: nat, x1: int, y1: int, e: int)
    requires AtStep(l, i, x1, y1, e) && i < Steps(l)
    ensures e < 2 * Steps(l)
    ensures AtStep(l, i + 1, x1 + MajorStep(l), if e >= 0 then y1 + MinorStep(l) else y1,
                   (if e >= 0 then e - 2 * Steps(l) else e) + 2 * MinorSpan(l))
  {
    MinorNext(Steps(l), MinorSpan(l), i, Minor(Steps(l), MinorSpan(l), i));
  }

  // ---------- drawing ----------

  /** One of the first n points. */
  ghost predicate OnLine(l: Line, n: nat, x: int, y: int) {
    exists i | 0 <= i < n :: PointAt(l, i) == (x, y)
  }

  /** The first n points have the value v, as far as they lie inside the picture, and no other pixel changes. */
  ghost predicate Drawn(g: Geometry, before: seq<Cell>, after: seq<Cell>, l: Line, n: nat, v: Cell) {
    && Fits(g, before) && |after| == |before|
    && forall x, y {:trigger Get(g, after, x, y)} | InBounds(g, x, y) ::
         Get(g, after, x, y) == if OnLine(l, n, x, y) then v else Get(g, before, x, y)
  }

  lemma OnLineNext(l: Line, n: nat, x: int, y: int)
    ensures OnLine(l, n + 1, x, y) == (OnLine(l, n, x, y) || PointAt(l, n) == (x, y))
  {
  }

  lemma DrawnNext(g: Geometry, before: seq<Cell>, now: seq<Cell>, after: seq<Cell>, l: Line, n: nat, v: Cell)
    requires Drawn(g, before, now, l, n, v)
    requires var (x, y) := PointAt(l, n);
             if InBounds(g, x, y) then Painted(g, now, after, Rect(x, y, 1, 1), v) else after == now
    ensures Drawn(g, before, after, l, n + 1, v)
  {
    var (x, y) := PointAt(l, n);
    forall x', y' | InBounds(g, x', y')
      ensures Get(g, after, x', y') == if OnLine(l, n + 1, x', y') then v else Get(g, before, x', y')
    {
      OnLineNext(l, n, x', y');
    }
  }
}
