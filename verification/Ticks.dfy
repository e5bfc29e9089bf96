/** extmod/utime_mphal.c: arithmetic on a tick counter that wraps around. */
module Ticks {

  /** A counter with period 2 * half, held in machine words of `word` values. The source takes the period
      from MICROPY_PY_UTIME_TICKS_PERIOD, a power of two that divides the word, and masks with
      `period - 1`, which keeps the remainder modulo the period. */
  datatype Counter = Counter(half: int, word: int) {
    predicate Valid() {
      && half > 0
      && word >= 4 * half
      && word % (2 * half) == 0
    }

    function Period(): int {
      2 * half
    }
  }

  type Clock = c: Counter | c.Valid() witness Counter(1, 4)

  /** time_ticks_diff, without a conditional: the difference is moved forward by half a period, wrapped
      and moved back. The subtraction is done in machine words. */
  function TicksDiff(c: Clock, end: int, start: int): int {
    (end - start + c.half) % c.word % c.Period() - c.half
  }

  /** time_ticks_add */
  function TicksAdd(c: Clock, ticks: int, delta: int): int {
    (ticks + delta) % c.word % c.Period()
  }

  // ---------- remainders ----------

  lemma MultipleAtLeast(k: int, m: int)
    requires k >= 1 && m > 0
    ensures k * m >= m
  {
    assert k * m == m + (k - 1) * m;
  }

  /** A multiple of m that lies strictly between -m and m is zero. */
  lemma SmallMultiple(k: int, m: int)
    requires m > 0 && -m < k * m < m
    ensures k == 0
  {
    if k >= 1 {
      MultipleAtLeast(k, m);
    } else if k <= -1 {
      MultipleAtLeast(-k, m);
    }
  }

  lemma ModUnique(x: int, q: int, r: int, m: int)
    requires m > 0 && x == q * m + r && 0 <= r < m
    ensures x % m == r
  {
    var q', r' := x / m, x % m;
    assert x == q' * m + r';
    assert (q - q') * m == q * m - q' * m;
    SmallMultiple(q - q', m);
  }

  lemma ModMultiple(x: int, k: int, m: int)
    requires m > 0
    ensures (x + k * m) % m == x % m
  {
    var q, r := x / m, x % m;
    assert (q + k) * m == q * m + k * m;
    ModUnique(x + k * m, q + k, r, m);
  }

  lemma ModMod(x: int, c: Clock)
    ensures x % c.word % c.Period() == x % c.Period()
  {
    var p := c.Period();
    var k, q := c.word / p, x / c.word;
    assert x == x % c.word + q * (k * p);
    assert q * (k * p) == (q * k) * p;
    ModMultiple(x % c.word, q * k, p);
  }

  // ---------- what the two functions mean ----------

  /** ticks_diff is the representative, in [-half, half), of the difference modulo the period. */
  lemma TicksDiffIsCentered(c: Clock, end: int, start: int)
    ensures -c.half <= TicksDiff(c, end, start) < c.half
    ensures exists k :: end - start == TicksDiff(c, end, start) + k * c.Period()
  {
    var x := end - start + c.half;
    ModMod(x, c);
    assert end - start == TicksDiff(c, end, start) + (x / c.Period()) * c.Period();
  }

  /** There is only one such representative. */
  lemma CenteredIsUnique(c: Clock, x: int, k: int)
    requires -c.half <= x < c.half && -c.half <= x + k * c.Period() < c.half
    ensures k == 0
  {
    SmallMultiple(k, c.Period());
  }

  /** Subtracting what was added gives back the delta, exactly when the delta lies within half a period. */
  lemma DiffOfAdd(c: Clock, t: int, delta: int)
    ensures TicksDiff(c, TicksAdd(c, t, delta), t) == delta <==> -c.half <= delta < c.half
  {
    var end := TicksAdd(c, t, delta);
    TicksDiffIsCentered(c, end, t);
    if -c.half <= delta < c.half {
      var m := AddGap(c, t, delta);
      var k :| end - t == TicksDiff(c, end, t) + k * c.Period();
      SameCentered(c, TicksDiff(c, end, t), delta, k, m);
    }
  }

  lemma AddGap(c: Clock, t: int, delta: int) returns (m: int)
    ensures TicksAdd(c, t, delta) - t == delta + m * c.Period()
  {
    var p := c.Period();
    ModMod(t + delta, c);
    var q := (t + delta) / p;
    m := -q;
    assert t + delta == q * p + (t + delta) % p;
    assert m * p == -(q * p);
  }

  /** Centred representatives of the same difference are equal. */
  lemma SameCentered(c: Clock, x: int, y: int, k: int, m: int)
    requires -c.half <= x < c.half && -c.half <= y < c.half
    requires x + k * c.Period() == y + m * c.Period()
    ensures x == y
  {
    assert (k - m) * c.Period() == k * c.Period() - m * c.Period();
    CenteredIsUnique(c, x, k - m);
  }

  /** Adding the difference to the start leads to the end, for every pair of tick values. */
  lemma AddOfDiff(c: Clock, end: int, start: int)
    requires 0 <= end < c.Period()
    ensures TicksAdd(c, start, TicksDiff(c, end, start)) == end
  {
    var d, p := TicksDiff(c, end, start), c.Period();
    TicksDiffIsCentered(c, end, start);
    ModMod(start + d, c);
    var k :| end - start == d + k * p;
    assert start + d == end + (-k) * p;
    ModMultiple(end, -k, p);
    ModUnique(end, 0, end, p);
  }
}
