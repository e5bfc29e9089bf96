/** The schedule that pwm_start in esp8266/esppwm.c compiles, step by step, as functions on sequences,
    and the proof of the waveform it plays. Pin masks are sets of pin numbers. */
module PwmTable {

  const DEPTH := 1023
  const APB_CLK_FREQ := 80_000_000
  const WORD := 0x1_0000_0000

  /** struct pwm_single_param */
  datatype Single = Single(gpioSet: set<nat>, gpioClear: set<nat>, hTime: int)

  function PinSet(pins: seq<nat>): set<nat> {
    set p | p in pins
  }

  /** What a start compiles: the pin and the duty of each channel, and the period in microseconds. */
  datatype Config = Config(pins: seq<nat>, duty: seq<nat>, period: nat, gpio: set<nat>) {
    ghost predicate Valid() {
      && |duty| == |pins|
      && (forall i, j | 0 <= i < j < |pins| :: pins[i] != pins[j])
      && (forall i | 0 <= i < |pins| :: duty[i] <= DEPTH)
      && 1 <= period <= 1_000_000
      && gpio == PinSet(pins)
    }
  }

  /** The wanted waveform, in timer ticks: channel i is high for the first ends[i] ticks of each period. */
  datatype Wave = Wave(pins: seq<nat>, ends: seq<int>, total: int, gpio: set<nat>) {
    ghost predicate Valid() {
      && |ends| == |pins|
      && (forall i, j | 0 <= i < j < |pins| :: pins[i] != pins[j])
      && (forall i | 0 <= i < |pins| :: 0 <= ends[i] <= total)
      && 0 < total
      && gpio == PinSet(pins)
    }
  }

  // ---------- microseconds to ticks ----------

  /** US_TO_RTC_TIMER_TICKS, with its 32-bit products. */
  function UsToTicks(t: nat): nat {
    if t == 0 then 0
    else if t > 0x35A then
      (t / 4 * ((APB_CLK_FREQ / 16) / 250000) % WORD + t % 4 * ((APB_CLK_FREQ / 16) / 1000000)) % WORD
    else
      t * (APB_CLK_FREQ / 16) % WORD / 1000000
  }

  /** The macro is multiplication by 5 exactly as long as that fits in 32 bits. */
  lemma UsToTicksIsTimesFive(t: nat)
    requires t < WORD
    ensures UsToTicks(t) == 5 * t <==> 5 * t < WORD
  {
    assert (APB_CLK_FREQ / 16) / 250000 == 20 && (APB_CLK_FREQ / 16) / 1000000 == 5;
    if t > 0x35A {
      var a, b := t / 4 * 20, t % 4 * 5;
      assert a + b == 5 * t;
      if 5 * t < WORD {
        assert a % WORD == a;
      }
    }
  }

  /** The duty of a channel in microseconds (32-bit product). */
  function DutyUs(period: nat, duty: nat): nat {
    period * duty % WORD / DEPTH
  }

  function WaveOf(cfg: Config): (w: Wave)
    requires |cfg.duty| == |cfg.pins|
    ensures |w.ends| == |w.pins|
  {
    Wave(cfg.pins,
         seq(|cfg.pins|, i requires 0 <= i < |cfg.pins| => UsToTicks(DutyUs(cfg.period, cfg.duty[i]))),
         UsToTicks(cfg.period),
         cfg.gpio)
  }

  /** The 32-bit arithmetic is exact for every valid configuration. */
  lemma WaveOfExact(cfg: Config)
    requires cfg.Valid()
    ensures WaveOf(cfg).Valid()
    ensures WaveOf(cfg).total == 5 * cfg.period < WORD
    ensures forall i | 0 <= i < |cfg.pins| :: WaveOf(cfg).ends[i] == 5 * (cfg.period * cfg.duty[i] / DEPTH)
  {
    UsToTicksIsTimesFive(cfg.period);
    forall i | 0 <= i < |cfg.pins|
      ensures WaveOf(cfg).ends[i] == 5 * (cfg.period * cfg.duty[i] / DEPTH)
      ensures 0 <= WaveOf(cfg).ends[i] <= WaveOf(cfg).total
    {
      var us := DutyUs(cfg.period, cfg.duty[i]);
      DutyUsExact(cfg.period, cfg.duty[i]);
      UsToTicksIsTimesFive(us);
    }
  }

  lemma DutyUsExact(period: nat, duty: nat)
    requires period <= 1_000_000 && duty <= DEPTH
    ensures DutyUs(period, duty) == period * duty / DEPTH <= period
  {
    ProductBound(period, duty);
    var us := period * duty;
    assert us % WORD == us;
  }

  lemma ProductBound(period: nat, duty: nat)
    requires period <= 1_000_000 && duty <= DEPTH
    ensures 0 <= period * duty < WORD && period * duty / DEPTH <= period
  {
    var us := period * duty;
    MulMonotone(period, duty, DEPTH);
    assert us <= period * 1023;
  }

  lemma MulMonotone(a: nat, b: nat, c: nat)
    requires b <= c
    ensures 0 <= a * b <= a * c
  {
    assert a * c == a * b + a * (c - b);
  }

  // ---------- step 1: one entry per channel, and one for the period ----------

  function Entries(w: Wave): (s: seq<Single>)
    requires |w.ends| == |w.pins|
    ensures |s| == |w.pins| + 1
  {
    seq(|w.pins|, i requires 0 <= i < |w.pins| => Single({}, {w.pins[i]}, w.ends[i])) + [Single(w.gpio, {}, w.total)]
  }

  // ---------- step 2: sort ----------

  ghost predicate SortedTimes(s: seq<Single>) {
    forall i, j | 0 <= i < j < |s| :: s[i].hTime <= s[j].hTime
  }

  /** Insert behind all entries that are not later: entries with equal times keep their order. */
  function Insert(s: seq<Single>, x: Single): (r: seq<Single>)
    ensures |r| == |s| + 1
  {
    if s == [] || s[|s| - 1].hTime <= x.hTime then s + [x]
    else Insert(s[..|s| - 1], x) + [s[|s| - 1]]
  }

  function InsertSorted(s: seq<Single>): (r: seq<Single>)
    ensures |r| == |s|
  {
    if s == [] then [] else Insert(InsertSorted(s[..|s| - 1]), s[|s| - 1])
  }

  lemma {:induction false} InsertPermutes(s: seq<Single>, x: Single)
    ensures multiset(Insert(s, x)) == multiset(s) + multiset{x}
  {
    if s == [] || s[|s| - 1].hTime <= x.hTime {
    } else {
      assert s == s[..|s| - 1] + [s[|s| - 1]];
      InsertPermutes(s[..|s| - 1], x);
    }
  }

  lemma {:induction false} InsertBounded(s: seq<Single>, x: Single, bound: int)
    requires x.hTime <= bound && forall i | 0 <= i < |s| :: s[i].hTime <= bound
    ensures forall i | 0 <= i < |s| + 1 :: Insert(s, x)[i].hTime <= bound
  {
    if s == [] || s[|s| - 1].hTime <= x.hTime {
    } else {
      InsertBounded(s[..|s| - 1], x, bound);
    }
  }

  lemma {:induction false} InsertKeepsSorted(s: seq<Single>, x: Single)
    requires SortedTimes(s)
    ensures SortedTimes(Insert(s, x))
  {
    if s == [] || s[|s| - 1].hTime <= x.hTime {
    } else {
      var front, last := s[..|s| - 1], s[|s| - 1];
      InsertKeepsSorted(front, x);
      InsertBounded(front, x, last.hTime);
    }
  }

  lemma {:induction false} InsertSortedSorts(s: seq<Single>)
    ensures SortedTimes(InsertSorted(s)) && multiset(InsertSorted(s)) == multiset(s)
  {
    if s == [] {
    } else {
      var front, last := s[..|s| - 1], s[|s| - 1];
      assert s == front + [last];
      InsertSortedSorts(front);
      InsertKeepsSorted(InsertSorted(front), last);
      InsertPermutes(InsertSorted(front), last);
    }
  }

  // ---------- step 3: combine entries with equal times ----------

  /** Entry i joins entry i - 1, and the entries behind it move up. */
  function Joined(s: seq<Single>, i: nat): (r: seq<Single>)
    requires 0 < i < |s|
    ensures |r| == |s| - 1
  {
    var both := Single(s[i - 1].gpioSet + s[i].gpioSet, s[i - 1].gpioClear + s[i].gpioClear, s[i - 1].hTime);
    s[..i - 1] + [both] + s[i + 1..]
  }

  function CombineBelow(s: seq<Single>, i: nat): (r: seq<Single>)
    requires i < |s|
    ensures 0 < |r| <= |s|
    decreases i
  {
    if i == 0 then s
    else if s[i].hTime == s[i - 1].hTime then CombineBelow(Joined(s, i), i - 1)
    else CombineBelow(s, i - 1)
  }

  ghost predicate ClearsAt(s: seq<Single>, pin: nat, t: int) {
    exists k :: 0 <= k < |s| && s[k].hTime == t && pin in s[k].gpioClear
  }

  ghost predicate SetsAt(s: seq<Single>, pin: nat, t: int) {
    exists k :: 0 <= k < |s| && s[k].hTime == t && pin in s[k].gpioSet
  }

  /** Two tables that do the same to every pin at every time. */
  ghost predicate SameEffects(s: seq<Single>, r: seq<Single>) {
    forall pin, t :: (ClearsAt(s, pin, t) <==> ClearsAt(r, pin, t)) && (SetsAt(s, pin, t) <==> SetsAt(r, pin, t))
  }

  ghost predicate StrictFrom(s: seq<Single>, i: nat) {
    forall j, k | i <= j < k < |s| :: s[j].hTime < s[k].hTime
  }

  lemma JoinedEffects(s: seq<Single>, i: nat)
    requires 0 < i < |s| && s[i].hTime == s[i - 1].hTime
    ensures SameEffects(s, Joined(s, i))
  {
    var r := Joined(s, i);
    forall pin, t
      ensures ClearsAt(s, pin, t) <==> ClearsAt(r, pin, t)
    {
      if ClearsAt(s, pin, t) {
        var k :| 0 <= k < |s| && s[k].hTime == t && pin in s[k].gpioClear;
        var m := if k < i then k else k - 1;
        assert r[m].hTime == t && pin in r[m].gpioClear;
      }
      if ClearsAt(r, pin, t) {
        var m :| 0 <= m < |r| && r[m].hTime == t && pin in r[m].gpioClear;
        var k := if m < i - 1 then m else if m >= i then m + 1 else if pin in s[i].gpioClear then i else i - 1;
        assert s[k].hTime == t && pin in s[k].gpioClear;
      }
    }
    forall pin, t
      ensures SetsAt(s, pin, t) <==> SetsAt(r, pin, t)
    {
      if SetsAt(s, pin, t) {
        var k :| 0 <= k < |s| && s[k].hTime == t && pin in s[k].gpioSet;
        var m := if k < i then k else k - 1;
        assert r[m].hTime == t && pin in r[m].gpioSet;
      }
      if SetsAt(r, pin, t) {
        var m :| 0 <= m < |r| && r[m].hTime == t && pin in r[m].gpioSet;
        var k := if m < i - 1 then m else if m >= i then m + 1 else if pin in s[i].gpioSet then i else i - 1;
        assert s[k].hTime == t && pin in s[k].gpioSet;
      }
    }
  }

  lemma SameEffectsTransitive(s: seq<Single>, t: seq<Single>, r: seq<Single>)
    requires SameEffects(s, t) && SameEffects(t, r)
    ensures SameEffects(s, r)
  {
    forall pin, time
      ensures ClearsAt(s, pin, time) <==> ClearsAt(r, pin, time)
      ensures SetsAt(s, pin, time) <==> SetsAt(r, pin, time)
    {
      assert ClearsAt(s, pin, time) <==> ClearsAt(t, pin, time);
    }
  }

  /** Combining keeps what happens to every pin at every time. */
  lemma {:induction false} CombineEffects(s: seq<Single>, i: nat)
    requires i < |s|
    ensures SameEffects(s, CombineBelow(s, i))
    decreases i
  {
    if i == 0 {
    } else if s[i].hTime == s[i - 1].hTime {
      JoinedEffects(s, i);
      CombineEffects(Joined(s, i), i - 1);
      SameEffectsTransitive(s, Joined(s, i), CombineBelow(Joined(s, i), i - 1));
    } else {
      CombineEffects(s, i - 1);
    }
  }

  /** Combining leaves strictly increasing times. */
  lemma {:induction false} CombineStrict(s: seq<Single>, i: nat)
    requires i < |s| && SortedTimes(s) && StrictFrom(s, i)
    ensures StrictFrom(CombineBelow(s, i), 0)
    decreases i
  {
    if i == 0 {
    } else if s[i].hTime == s[i - 1].hTime {
      JoinedTimes(s, i);
      CombineStrict(Joined(s, i), i - 1);
    } else {
      assert s[i - 1].hTime < s[i].hTime;
      CombineStrict(s, i - 1);
    }
  }

  /** Combining keeps the first and the last time. */
  lemma {:induction false} CombineEnds(s: seq<Single>, i: nat)
    requires i < |s|
    ensures var r := CombineBelow(s, i); r[|r| - 1].hTime == s[|s| - 1].hTime && r[0].hTime == s[0].hTime
    decreases i
  {
    if i == 0 {
    } else if s[i].hTime == s[i - 1].hTime {
      var t := Joined(s, i);
      assert t[0].hTime == s[0].hTime && t[|t| - 1].hTime == s[|s| - 1].hTime;
      CombineEnds(t, i - 1);
    } else {
      CombineEnds(s, i - 1);
    }
  }

  lemma JoinedTimes(s: seq<Single>, i: nat)
    requires 0 < i < |s| && SortedTimes(s) && StrictFrom(s, i) && s[i].hTime == s[i - 1].hTime
    ensures var t := Joined(s, i);
            SortedTimes(t) && StrictFrom(t, i - 1)
  {
    var t := Joined(s, i);
    assert forall k {:trigger t[k]} | 0 <= k < |t| :: t[k].hTime == s[if k < i then k else k + 1].hTime;
  }

  // ---------- steps 4 to 6: time differences, the last entry, a leading zero ----------

  function Deltas(s: seq<Single>): (r: seq<Single>)
    ensures |r| == |s|
  {
    seq(|s|, k requires 0 <= k < |s| =>
      if k == 0 then s[0] else s[k].(hTime := s[k].hTime - s[k - 1].hTime))
  }

  function LastCleaned(s: seq<Single>): (r: seq<Single>)
    requires s != []
    ensures |r| == |s|
  {
    s[|s| - 1 := s[|s| - 1].(gpioClear := {})]
  }

  function ZeroRemoved(s: seq<Single>): (r: seq<Single>)
    requires s != []
  {
    if s[0].hTime == 0 then
      var last := s[|s| - 1];
      s[|s| - 1 := last.(gpioSet := last.gpioSet - s[0].gpioClear, gpioClear := last.gpioClear + s[0].gpioClear)][1..]
    else
      s
  }

  function Finished(e: seq<Single>): (r: seq<Single>)
    requires e != []
  {
    ZeroRemoved(LastCleaned(Deltas(e)))
  }

  /** The entries after step 3, with absolute times. */
  function Edges(w: Wave): (r: seq<Single>)
    requires |w.ends| == |w.pins|
    ensures r != []
  {
    CombineBelow(InsertSorted(Entries(w)), |w.pins|)
  }

  function Compile(w: Wave): (r: seq<Single>)
    requires |w.ends| == |w.pins|
  {
    Finished(Edges(w))
  }

  // ---------- what the compiled table means ----------

  /** The ticks of the first k intervals. */
  function SumTo(table: seq<Single>, k: nat): int
    requires k <= |table|
  {
    if k == 0 then 0 else SumTo(table, k - 1) + table[k - 1].hTime
  }

  /** `pin` is a channel whose high time ends at tick t. */
  ghost predicate EndsAt(w: Wave, pin: nat, t: int) {
    exists i :: 0 <= i < |w.pins| && i < |w.ends| && w.pins[i] == pin && w.ends[i] == t
  }

  /** A table that plays the waveform. */
  ghost predicate Plays(table: seq<Single>, w: Wave) {
    && table != []
    && FillsPeriod(table, w)
    && ClearsAtEnds(table, w)
    && PlaysEveryEnd(table, w)
    && BoundaryEntry(table[|table| - 1], w)
  }

  /** No interval is empty, and they add up to the period. */
  ghost predicate FillsPeriod(table: seq<Single>, w: Wave) {
    && (forall j | 0 <= j < |table| :: table[j].hTime > 0)
    && SumTo(table, |table|) == w.total
  }

  /** Each entry but the last clears exactly the channels whose high time ends with its interval. */
  ghost predicate ClearsAtEnds(table: seq<Single>, w: Wave) {
    && (forall j | 0 <= j < |table| - 1 :: table[j].gpioSet == {})
    && (forall j, pin | 0 <= j < |table| - 1 :: pin in table[j].gpioClear <==> EndsAt(w, pin, SumTo(table, j + 1)))
  }

  /** Every end inside the period is the end of some interval. */
  ghost predicate PlaysEveryEnd(table: seq<Single>, w: Wave) {
    forall i | 0 <= i < |w.ends| && 0 < w.ends[i] < w.total :: IntervalEnds(table, w.ends[i])
  }

  ghost predicate IntervalEnds(table: seq<Single>, t: int) {
    exists k :: 1 <= k < |table| && SumTo(table, k) == t
  }

  /** The entry that the interrupt puts out at the period boundary sets the channels that have a high time
      and clears the others. */
  ghost predicate BoundaryEntry(last: Single, w: Wave) {
    && (forall pin :: pin in last.gpioClear <==> EndsAt(w, pin, 0))
    && (forall pin :: pin in last.gpioSet <==> pin in w.gpio && !EndsAt(w, pin, 0))
  }

  // ---------- steps 1 to 3: the edges ----------

  /** Strictly increasing times; at every time exactly the channels that end there are cleared, and at the
      end of the period all channels are set. */
  ghost predicate MeansWave(e: seq<Single>, w: Wave) {
    && e != [] && StrictFrom(e, 0) && 0 <= e[0].hTime && e[|e| - 1].hTime == w.total
    && (forall pin, t :: ClearsAt(e, pin, t) <==> EndsAt(w, pin, t))
    && (forall pin, t :: SetsAt(e, pin, t) <==> pin in w.gpio && t == w.total)
  }

  lemma EntriesEffects(w: Wave)
    requires w.Valid()
    ensures forall pin, t :: ClearsAt(Entries(w), pin, t) <==> EndsAt(w, pin, t)
    ensures forall pin, t :: SetsAt(Entries(w), pin, t) <==> pin in w.gpio && t == w.total
  {
    var s, n := Entries(w), |w.pins|;
    forall pin, t
      ensures ClearsAt(s, pin, t) <==> EndsAt(w, pin, t)
    {
      if EndsAt(w, pin, t) {
        var i :| 0 <= i < n && w.pins[i] == pin && w.ends[i] == t;
        assert s[i].hTime == t && pin in s[i].gpioClear;
      }
    }
    assert s[n] == Single(w.gpio, {}, w.total);
  }

  lemma PermutationEffects(s: seq<Single>, r: seq<Single>)
    requires multiset(s) == multiset(r)
    ensures SameEffects(s, r)
  {
    forall k | 0 <= k < |s| ensures s[k] in r {
      assert s[k] in multiset(s);
    }
    forall k | 0 <= k < |r| ensures r[k] in s {
      assert r[k] in multiset(r);
    }
  }

  /** No high time is longer than the period, so the period entry, or one as late, is last in the sort. */
  lemma PeriodIsLatest(w: Wave)
    requires w.Valid()
    ensures var r := InsertSorted(Entries(w)); r[|w.pins|].hTime == w.total && 0 <= r[0].hTime
  {
    var s, n := Entries(w), |w.pins|;
    var r := InsertSorted(s);
    InsertSortedSorts(s);
    assert s[n] in multiset(r);
    var m :| 0 <= m < |r| && r[m] == s[n];
    assert r[m].hTime <= r[n].hTime;
    assert r[n] in multiset(r) && r[0] in multiset(r);
    assert r[n] in s && r[0] in s;
  }

  lemma EdgesMeaning(w: Wave)
    requires w.Valid()
    ensures MeansWave(Edges(w), w)
  {
    var s := Entries(w);
    EntriesEffects(w);
    InsertSortedSorts(s);
    PermutationEffects(s, InsertSorted(s));
    PeriodIsLatest(w);
    CombineEffects(InsertSorted(s), |w.pins|);
    CombineStrict(InsertSorted(s), |w.pins|);
    CombineEnds(InsertSorted(s), |w.pins|);
    SameEffectsTransitive(s, InsertSorted(s), Edges(w));
  }

  /** With strictly increasing times, an entry's masks are exactly what happens at its time. */
  lemma EntryAtTime(s: seq<Single>, k: nat, pin: nat)
    requires StrictFrom(s, 0) && k < |s|
    ensures pin in s[k].gpioClear <==> ClearsAt(s, pin, s[k].hTime)
    ensures pin in s[k].gpioSet <==> SetsAt(s, pin, s[k].hTime)
  {
    forall m | 0 <= m < |s| && m != k ensures s[m].hTime != s[k].hTime {
      assert s[if m < k then m else k].hTime < s[if m < k then k else m].hTime;
    }
  }

  lemma EdgeSets(e: seq<Single>, w: Wave)
    requires MeansWave(e, w)
    ensures e[|e| - 1].gpioSet == w.gpio
    ensures forall k | 0 <= k < |e| - 1 :: e[k].gpioSet == {}
  {
    var n := |e|;
    forall pin ensures pin in e[n - 1].gpioSet <==> pin in w.gpio {
      EntryAtTime(e, n - 1, pin);
    }
    forall k | 0 <= k < n - 1 ensures e[k].gpioSet == {} {
      forall pin ensures pin !in e[k].gpioSet {
        EntryAtTime(e, k, pin);
        assert e[k].hTime < e[n - 1].hTime;
      }
    }
  }

  // ---------- steps 4 to 6: from edges to intervals ----------

  function Skip(e: seq<Single>): nat
    requires e != []
  {
    if e[0].hTime == 0 then 1 else 0
  }

  function ZeroPins(e: seq<Single>): set<nat>
    requires e != []
  {
    if e[0].hTime == 0 then e[0].gpioClear else {}
  }

  /** The interval that ends at edge k. */
  function Interval(e: seq<Single>, k: nat): int
    requires k < |e|
  {
    if k == 0 then e[0].hTime else e[k].hTime - e[k - 1].hTime
  }

  /** Steps 4 to 6, entry by entry. */
  lemma FinishedEntry(e: seq<Single>, j: nat)
    requires e != [] && (e[0].hTime == 0 ==> |e| > 1) && j < |e| - Skip(e)
    ensures |Finished(e)| == |e| - Skip(e)
    ensures Finished(e)[j].hTime == Interval(e, j + Skip(e))
    ensures j < |e| - Skip(e) - 1 ==>
              Finished(e)[j].gpioSet == e[j + Skip(e)].gpioSet && Finished(e)[j].gpioClear == e[j + Skip(e)].gpioClear
    ensures j == |e| - Skip(e) - 1 ==>
              Finished(e)[j].gpioSet == e[|e| - 1].gpioSet - ZeroPins(e) && Finished(e)[j].gpioClear == ZeroPins(e)
  {
    var c := LastCleaned(Deltas(e));
    var k, n := j + Skip(e), |e|;
    assert c[k].hTime == Interval(e, k) && c[0].hTime == e[0].hTime;
    assert c[k].gpioSet == e[k].gpioSet && c[k].gpioClear == if k < n - 1 then e[k].gpioClear else {};
    if Skip(e) == 1 {
      assert c[0].gpioClear == e[0].gpioClear;
    }
  }

  /** The entries f of a finished table, in terms of its edges e. */
  ghost predicate FinishedFrom(f: seq<Single>, e: seq<Single>)
    requires e != []
  {
    && 0 < |f| == |e| - Skip(e)
    && (forall j {:trigger f[j]} | 0 <= j < |f| :: f[j].hTime == Interval(e, j + Skip(e)))
    && (forall j {:trigger f[j]} | 0 <= j < |f| - 1 ::
          f[j].gpioSet == e[j + Skip(e)].gpioSet && f[j].gpioClear == e[j + Skip(e)].gpioClear)
    && f[|f| - 1].gpioSet == e[|e| - 1].gpioSet - ZeroPins(e)
    && f[|f| - 1].gpioClear == ZeroPins(e)
  }

  lemma FinishedIs(e: seq<Single>)
    requires e != [] && (e[0].hTime == 0 ==> |e| > 1)
    ensures FinishedFrom(Finished(e), e)
  {
    var f := Finished(e);
    FinishedEntry(e, |e| - Skip(e) - 1);
    forall j | 0 <= j < |f|
      ensures f[j].hTime == Interval(e, j + Skip(e))
      ensures j < |f| - 1 ==>
                f[j].gpioSet == e[j + Skip(e)].gpioSet && f[j].gpioClear == e[j + Skip(e)].gpioClear
    {
      FinishedEntry(e, j);
    }
  }

  lemma {:induction false} FinishedSums(f: seq<Single>, e: seq<Single>, j: nat)
    requires e != [] && FinishedFrom(f, e) && j < |f|
    ensures SumTo(f, j + 1) == e[j + Skip(e)].hTime
  {
    assert f[j].hTime == Interval(e, j + Skip(e));
    if j == 0 {
      assert SumTo(f, 0) == 0;
    } else {
      FinishedSums(f, e, j - 1);
    }
  }

  lemma FinishedFills(f: seq<Single>, e: seq<Single>, w: Wave)
    requires MeansWave(e, w) && FinishedFrom(f, e) && 0 < w.total
    ensures FillsPeriod(f, w)
  {
    FinishedSums(f, e, |f| - 1);
    forall j | 0 <= j < |f| ensures f[j].hTime > 0 {
      var k := j + Skip(e);
      if k > 0 {
        assert e[k - 1].hTime < e[k].hTime;
      }
    }
  }

  lemma FinishedClears(f: seq<Single>, e: seq<Single>, w: Wave)
    requires MeansWave(e, w) && FinishedFrom(f, e)
    ensures ClearsAtEnds(f, w)
  {
    EdgeSets(e, w);
    forall j, pin | 0 <= j < |f| - 1
      ensures pin in f[j].gpioClear <==> EndsAt(w, pin, SumTo(f, j + 1))
    {
      FinishedSums(f, e, j);
      EntryAtTime(e, j + Skip(e), pin);
    }
  }

  lemma FinishedPlaysEnd(f: seq<Single>, e: seq<Single>, w: Wave, i: nat)
    requires w.Valid() && MeansWave(e, w) && FinishedFrom(f, e) && i < |w.pins| && 0 < w.ends[i] < w.total
    ensures IntervalEnds(f, w.ends[i])
  {
    assert EndsAt(w, w.pins[i], w.ends[i]);
    assert ClearsAt(e, w.pins[i], w.ends[i]);
    var k :| 0 <= k < |e| && e[k].hTime == w.ends[i];
    var j := k - Skip(e);
    FinishedSums(f, e, j);
    assert SumTo(f, j + 1) == w.ends[i];
  }

  lemma FinishedBoundary(f: seq<Single>, e: seq<Single>, w: Wave)
    requires MeansWave(e, w) && FinishedFrom(f, e)
    ensures BoundaryEntry(f[|f| - 1], w)
  {
    EdgeSets(e, w);
    forall pin ensures pin in ZeroPins(e) <==> EndsAt(w, pin, 0) {
      EntryAtTime(e, 0, pin);
      if ClearsAt(e, pin, 0) {
        var k :| 0 <= k < |e| && e[k].hTime == 0 && pin in e[k].gpioClear;
        assert k == 0;
      }
    }
  }

  lemma FinishedPlays(f: seq<Single>, e: seq<Single>, w: Wave)
    requires w.Valid() && MeansWave(e, w) && FinishedFrom(f, e)
    ensures Plays(f, w)
  {
    FinishedFills(f, e, w);
    FinishedClears(f, e, w);
    FinishedBoundary(f, e, w);
    forall i | 0 <= i < |w.ends| && 0 < w.ends[i] < w.total ensures IntervalEnds(f, w.ends[i]) {
      FinishedPlaysEnd(f, e, w, i);
    }
  }

  /** The main result about pwm_start: the compiled table plays the wanted waveform. No step loses a pin, and
      no empty interval is left. */
  lemma CompilePlays(w: Wave)
    requires w.Valid()
    ensures Plays(Compile(w), w)
  {
    EdgesMeaning(w);
    FinishedIs(Edges(w));
    FinishedPlays(Compile(w), Edges(w), w);
  }

  // ---------- the waveform ----------

  /** gpio_output_set: the pins that are high afterwards. */
  function Output(high: set<nat>, e: Single): set<nat> {
    high + e.gpioSet - e.gpioClear
  }

  /** The pins that are high during interval k of a period: the last entry is put out at the boundary, and
      entry k - 1 at the start of interval k. */
  function HighDuring(table: seq<Single>, before: set<nat>, k: nat): set<nat>
    requires k < |table|
  {
    if k == 0 then Output(before, table[|table| - 1])
    else Output(HighDuring(table, before, k - 1), table[k - 1])
  }

  lemma {:induction false} HighUntilCleared(table: seq<Single>, w: Wave, before: set<nat>, k: nat, i: nat)
    requires w.Valid() && Plays(table, w) && k < |table| && i < |w.pins|
    ensures w.pins[i] in HighDuring(table, before, k) <==>
            w.ends[i] != 0 && forall j | 1 <= j <= k :: SumTo(table, j) != w.ends[i]
  {
    EndsOnlyOnce(w, i, SumTo(table, k));
    if k == 0 {
    } else {
      HighUntilCleared(table, w, before, k - 1, i);
      assert w.pins[i] in table[k - 1].gpioClear <==> EndsAt(w, w.pins[i], SumTo(table, (k - 1) + 1));
    }
  }

  lemma EndsOnlyOnce(w: Wave, i: nat, t: int)
    requires w.Valid() && i < |w.pins|
    ensures EndsAt(w, w.pins[i], t) <==> w.ends[i] == t
  {
  }

  lemma {:induction false} SumToIncreases(table: seq<Single>, j: nat, k: nat)
    requires j < k <= |table| && forall m | 0 <= m < |table| :: table[m].hTime > 0
    ensures SumTo(table, j) < SumTo(table, k)
    decreases k
  {
    if k == j + 1 {
    } else {
      SumToIncreases(table, j, k - 1);
    }
  }

  /** In interval k, no interval has ended at tick `end` yet just when tick t comes before it. */
  lemma NoEndYet(table: seq<Single>, end: nat, k: nat, t: nat)
    requires k < |table| && SumTo(table, k) <= t < SumTo(table, k + 1)
    requires forall m | 0 <= m < |table| :: table[m].hTime > 0
    requires 0 < end < SumTo(table, |table|) ==> IntervalEnds(table, end)
    ensures t < end ==> forall j | 1 <= j <= k :: SumTo(table, j) != end
    ensures 0 < end <= t ==> exists j :: 1 <= j <= k && SumTo(table, j) == end
  {
    var n := |table|;
    if t < end {
      forall j | 1 <= j <= k ensures SumTo(table, j) != end {
        if j < k {
          SumToIncreases(table, j, k);
        }
      }
    } else if end != 0 {
      if k + 1 < n {
        SumToIncreases(table, k + 1, n);
      }
      var j :| 1 <= j < n && SumTo(table, j) == end;
      if j > k + 1 {
        SumToIncreases(table, k + 1, j);
      }
      assert 1 <= j <= k && SumTo(table, j) == end;
    }
  }

  /** In every period, from its boundary on, each channel is high for its first 5 * floor(period * duty / 1023)
      ticks and low for the rest, whatever was put out before; the period has 5 * period ticks. */
  lemma Waveform(cfg: Config, before: set<nat>, k: nat, t: nat, i: nat)
    requires cfg.Valid() && i < |cfg.pins|
    requires var table := Compile(WaveOf(cfg)); k < |table| && SumTo(table, k) <= t < SumTo(table, k + 1)
    ensures cfg.pins[i] in HighDuring(Compile(WaveOf(cfg)), before, k)
       <==> t < 5 * (cfg.period * cfg.duty[i] / DEPTH)
    ensures SumTo(Compile(WaveOf(cfg)), |Compile(WaveOf(cfg))|) == 5 * cfg.period
  {
    WaveOfExact(cfg);
    CompilePlays(WaveOf(cfg));
    WaveIsPlayed(Compile(WaveOf(cfg)), WaveOf(cfg), before, k, t, i);
  }

  lemma WaveIsPlayed(table: seq<Single>, w: Wave, before: set<nat>, k: nat, t: nat, i: nat)
    requires w.Valid() && Plays(table, w) && i < |w.pins|
    requires k < |table| && SumTo(table, k) <= t < SumTo(table, k + 1)
    ensures w.pins[i] in HighDuring(table, before, k) <==> t < w.ends[i]
  {
    HighUntilCleared(table, w, before, k, i);
    NoEndYet(table, w.ends[i], k, t);
  }

  /** Pins that are no channel of the configuration are left alone. */
  lemma {:induction false} OtherPinsUntouched(table: seq<Single>, w: Wave, before: set<nat>, k: nat, pin: nat)
    requires w.Valid() && Plays(table, w) && k < |table| && pin !in w.gpio
    ensures pin in HighDuring(table, before, k) <==> pin in before
  {
    if k == 0 {
      var last := table[|table| - 1];
      assert pin in last.gpioClear <==> EndsAt(w, pin, 0);
      assert pin in last.gpioSet ==> pin in w.gpio;
    } else {
      OtherPinsUntouched(table, w, before, k - 1, pin);
      assert pin in table[k - 1].gpioClear <==> EndsAt(w, pin, SumTo(table, (k - 1) + 1));
    }
  }

  /** Every tick of the period lies in an interval of the table. */
  lemma {:induction false} TickHasInterval(table: seq<Single>, n: nat, t: nat) returns (k: nat)
    requires n <= |table| && t < SumTo(table, n)
    ensures k < n && SumTo(table, k) <= t < SumTo(table, k + 1)
  {
    if t >= SumTo(table, n - 1) {
      k := n - 1;
    } else {
      k := TickHasInterval(table, n - 1, t);
    }
  }

  /** And in no other one, as no interval is empty: the intervals of a table that plays a waveform divide its period. */
  lemma TickHasOneInterval(table: seq<Single>, w: Wave, t: nat)
    requires Plays(table, w) && t < w.total
    ensures exists k :: IsIntervalOf(table, k, t) && forall j | IsIntervalOf(table, j, t) :: j == k
  {
    var k := TickHasInterval(table, |table|, t);
    assert IsIntervalOf(table, k, t);
    forall j | IsIntervalOf(table, j, t) ensures j == k {
      if j < k {
        NotAfter(table, j + 1, k);
      } else if k < j {
        NotAfter(table, k + 1, j);
      }
    }
  }

  predicate IsIntervalOf(table: seq<Single>, k: int, t: int) {
    0 <= k < |table| && SumTo(table, k) <= t < SumTo(table, k + 1)
  }

  lemma NotAfter(table: seq<Single>, j: nat, k: nat)
    requires j <= k <= |table| && forall m | 0 <= m < |table| :: table[m].hTime > 0
    ensures SumTo(table, j) <= SumTo(table, k)
  {
    if j < k {
      SumToIncreases(table, j, k);
    }
  }
}
