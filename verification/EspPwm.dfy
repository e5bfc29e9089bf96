/** esp8266/esppwm.c: the PWM driver. pwm_start compiles the channels into one of two tables and the timer
    interrupt replays the other one; at each period boundary the interrupt switches to the newest table. */
module EspPwm {
  import opened PwmTable

  const CHANNELS := 8
  const FREQ_MAX := 1000
  const ONE_SECOND := 1_000_000
  const PIN_NUM: seq<nat> := [0, 2, 4, 5, 12, 13, 14, 15]

  // ---------- the loops of pwm_start, on one table ----------

  /** pwm_insert_sort: the first n entries. */
  method InsertSort(pwm: array<Single>, n: nat)
    requires n <= pwm.Length
    modifies pwm
    ensures pwm[..n] == InsertSorted(old(pwm[..n]))
    ensures pwm[n..] == old(pwm[n..])
  {
    ghost var was := pwm[..];
    assert was[..n] == pwm[..n];
    assert n > 0 ==> InsertSorted(was[..1]) == was[..1] by {
      if n > 0 {
        InsertSortedStep(was, 0);
      }
    }
    var i := 1;
    while i < n
      invariant n > 0 ==> 1 <= i <= n && pwm[..i] == InsertSorted(was[..i])
      invariant forall k {:trigger pwm[k]} | n > 0 && i <= k < pwm.Length :: pwm[k] == was[k]
      invariant n == 0 ==> pwm[..] == was
    {
      InsertSortedStep(was, i);
      SortStep(pwm, i);
      i := i + 1;
    }
  }

  lemma InsertSortedStep(was: seq<Single>, i: nat)
    requires i < |was|
    ensures InsertSorted(was[..i + 1]) == Insert(InsertSorted(was[..i]), was[i])
  {
    assert was[..i + 1][..i] == was[..i];
  }

  /** One round of the sort. */
  method SortStep(pwm: array<Single>, i: nat)
    requires 0 < i < pwm.Length
    modifies pwm
    ensures pwm[..i + 1] == Insert(old(pwm[..i]), old(pwm[i]))
    ensures forall k {:trigger pwm[k]} | i < k < pwm.Length :: pwm[k] == old(pwm[k])
  {
    ghost var sorted, x := pwm[..i], pwm[i];
    if pwm[i].hTime < pwm[i - 1].hTime {
      ghost var m := InsertAt(pwm, i);
      InsertedAt(sorted, x, m, pwm[..i + 1]);
    } else {
      assert pwm[..i + 1] == sorted + [x];
    }
  }

  /** The body of the sort: entry i moves down, behind all entries that are not later. */
  method InsertAt(pwm: array<Single>, i: nat) returns (ghost m: nat)
    requires 0 < i < pwm.Length && pwm[i].hTime < pwm[i - 1].hTime
    modifies pwm
    ensures m <= i && (m == 0 || old(pwm[m - 1]).hTime <= old(pwm[i]).hTime)
    ensures forall k {:trigger old(pwm[k])} | m <= k < i :: old(pwm[i]).hTime < old(pwm[k]).hTime
    ensures forall k {:trigger pwm[k]} | 0 <= k < m :: pwm[k] == old(pwm[k])
    ensures pwm[m] == old(pwm[i])
    ensures forall k {:trigger pwm[k]} | m < k <= i :: pwm[k] == old(pwm[k - 1])
    ensures forall k {:trigger pwm[k]} | i < k < pwm.Length :: pwm[k] == old(pwm[k])
  {
    var j := i - 1;
    var tmp := pwm[i];
    pwm[i] := pwm[i - 1];
    while tmp.hTime < pwm[j].hTime
      invariant 0 <= j < i
      invariant forall k {:trigger old(pwm[k])} | j < k < i :: tmp.hTime < old(pwm[k]).hTime
      invariant forall k {:trigger pwm[k]} | 0 <= k <= j :: pwm[k] == old(pwm[k])
      invariant forall k {:trigger pwm[k]} | j + 1 < k <= i :: pwm[k] == old(pwm[k - 1])
      invariant forall k {:trigger pwm[k]} | i < k < pwm.Length :: pwm[k] == old(pwm[k])
      decreases j
    {
      pwm[j + 1] := pwm[j];
      j := j - 1;
      if j < 0 {
        break;
      }
    }
    pwm[j + 1] := tmp;
    m := j + 1;
  }

  /** The place that InsertAt finds is the place of Insert. */
  lemma {:induction false} InsertIsAt(s: seq<Single>, x: Single, m: nat)
    requires m <= |s| && (m == 0 || s[m - 1].hTime <= x.hTime)
    requires forall k | m <= k < |s| :: x.hTime < s[k].hTime
    ensures Insert(s, x) == s[..m] + [x] + s[m..]
  {
    if m == |s| {
      assert s[..m] == s && s[m..] == [];
      assert s[..m] + [x] + s[m..] == s + [x];
    } else {
      var front, last := s[..|s| - 1], s[|s| - 1];
      InsertIsAt(front, x, m);
      assert s[..m] == front[..m] && s[m..] == front[m..] + [last];
      assert front[..m] + [x] + (front[m..] + [last]) == front[..m] + [x] + front[m..] + [last];
    }
  }

  lemma InsertedAt(s: seq<Single>, x: Single, m: nat, r: seq<Single>)
    requires m <= |s| && (m == 0 || s[m - 1].hTime <= x.hTime)
    requires forall k | m <= k < |s| :: x.hTime < s[k].hTime
    requires |r| == |s| + 1 && r[m] == x
    requires forall k {:trigger r[k]} | 0 <= k < m :: r[k] == s[k]
    requires forall k {:trigger r[k]} | m < k < |r| :: r[k] == s[k - 1]
    ensures r == Insert(s, x)
  {
    InsertIsAt(s, x, m);
  }

  /** Step 3: combine entries with equal times; returns the new number of entries. */
  method Combine(single: array<Single>, n: nat) returns (count: nat)
    requires n < single.Length
    modifies single
    ensures count <= single.Length && single[..count] == CombineBelow(old(single[..n + 1]), n)
  {
    ghost var goal := CombineBelow(single[..n + 1], n);
    count := n + 1;
    var i: nat := n;
    while i > 0
      invariant i < count <= single.Length
      invariant CombineBelow(single[..count], i) == goal
    {
      ghost var s := single[..count];
      if single[i].hTime == single[i - 1].hTime {
        single[i - 1] := single[i - 1].(gpioSet := single[i - 1].gpioSet + single[i].gpioSet);
        single[i - 1] := single[i - 1].(gpioClear := single[i - 1].gpioClear + single[i].gpioClear);
        ghost var t := single[..count];
        ShiftDown(single, i + 1, count);
        count := count - 1;
        JoinedShift(s, i, t);
      }
      i := i - 1;
      assert CombineBelow(single[..count], i) == goal;
    }
  }

  lemma JoinedShift(s: seq<Single>, i: nat, t: seq<Single>)
    requires 0 < i < |s| == |t|
    requires t == s[i - 1 := Single(s[i - 1].gpioSet + s[i].gpioSet, s[i - 1].gpioClear + s[i].gpioClear, s[i - 1].hTime)]
    ensures t[..i] + t[i + 1..] == Joined(s, i)
  {
  }

  /** Entries from..count move down by one. */
  method ShiftDown(single: array<Single>, from: nat, count: nat)
    requires 0 < from <= count <= single.Length
    modifies single
    ensures single[..count - 1] == old(single[..count])[..from - 1] + old(single[..count])[from..]
  {
    var j := from;
    while j < count
      invariant from <= j <= count
      invariant forall k {:trigger single[k]} | 0 <= k < from - 1 :: single[k] == old(single[k])
      invariant forall k {:trigger single[k]} | from - 1 <= k < j - 1 :: single[k] == old(single[k + 1])
      invariant forall k {:trigger single[k]} | j <= k < count :: single[k] == old(single[k])
    {
      single[j - 1] := single[j];
      j := j + 1;
    }
  }

  /** Step 4: absolute times become differences (32-bit subtraction). */
  method TakeDeltas(single: array<Single>, count: nat)
    requires 0 < count <= single.Length
    requires StrictFrom(single[..count], 0) && 0 <= single[0].hTime && single[count - 1].hTime < WORD
    modifies single
    ensures single[..count] == Deltas(old(single[..count]))
  {
    ghost var s := single[..count];
    var i := count - 1;
    while i > 0
      invariant 0 <= i < count == |s|
      invariant forall k {:trigger single[k]} | 0 <= k <= i :: single[k] == s[k]
      invariant forall k {:trigger single[k]} | i < k < count :: single[k] == DeltaAt(s, k)
    {
      WordDifference(s, i);
      single[i] := single[i].(hTime := (single[i].hTime - single[i - 1].hTime) % WORD);
      i := i - 1;
    }
    DeltasFrom(s, single[..count]);
  }

  ghost function DeltaAt(s: seq<Single>, k: nat): Single
    requires 0 < k < |s|
  {
    s[k].(hTime := s[k].hTime - s[k - 1].hTime)
  }

  lemma DeltasFrom(s: seq<Single>, r: seq<Single>)
    requires |r| == |s| > 0 && r[0] == s[0] && forall k | 0 < k < |s| :: r[k] == DeltaAt(s, k)
    ensures r == Deltas(s)
  {
  }

  lemma WordDifference(s: seq<Single>, i: nat)
    requires 0 < i < |s| && StrictFrom(s, 0) && 0 <= s[0].hTime && s[|s| - 1].hTime < WORD
    ensures (s[i].hTime - s[i - 1].hTime) % WORD == s[i].hTime - s[i - 1].hTime
  {
    assert s[i - 1].hTime < s[i].hTime;
    assert i - 1 > 0 ==> s[0].hTime < s[i - 1].hTime;
    assert i < |s| - 1 ==> s[i].hTime < s[|s| - 1].hTime;
  }

  /** Step 6: a leading entry without a duration is removed; the last entry takes over its pins. */
  method RemoveZero(single: array<Single>, n: nat) returns (count: nat)
    requires 0 < n <= single.Length
    modifies single
    ensures count <= single.Length && single[..count] == ZeroRemoved(old(single[..n]))
  {
    ghost var s := single[..n];
    count := n;
    if single[0].hTime == 0 {
      single[count - 1] := single[count - 1].(gpioSet := single[count - 1].gpioSet - single[0].gpioClear);
      single[count - 1] := single[count - 1].(gpioClear := single[count - 1].gpioClear + single[0].gpioClear);
      ghost var t := single[..n];
      ShiftDown(single, 1, count);
      count := count - 1;
      assert single[..count] == t[1..];
      assert t == s[n - 1 := t[n - 1]];
    }
  }

  /** Steps 2 to 6 of pwm_start. */
  method Schedule(single: array<Single>, n: nat, ghost w: Wave) returns (count: nat)
    requires w.Valid() && w.total < WORD && n == |w.pins|
    requires n < single.Length && single[..n + 1] == Entries(w)
    modifies single
    ensures 0 < count <= single.Length && single[..count] == Compile(w)
  {
    ghost var e := Edges(w);
    InsertSort(single, n + 1);
    ghost var sorted := single[..n + 1];
    assert CombineBelow(sorted, n) == e;
    count := Combine(single, n);
    assert single[..count] == e;
    EdgeTimes(w);
    assert single[0] == e[0] && single[count - 1] == e[count - 1];
    TakeDeltas(single, count);
    CleanLast(single, count);
    count := RemoveZero(single, count);
  }

  lemma EdgeTimes(w: Wave)
    requires w.Valid()
    ensures var e := Edges(w); StrictFrom(e, 0) && 0 <= e[0].hTime && e[|e| - 1].hTime == w.total
    ensures Compile(w) != []
  {
    EdgesMeaning(w);
    FinishedIs(Edges(w));
  }

  /** Step 5: the last entry clears nothing. */
  method CleanLast(single: array<Single>, count: nat)
    requires 0 < count <= single.Length
    modifies single
    ensures single[..count] == LastCleaned(old(single[..count]))
  {
    ghost var s := single[..count];
    single[count - 1] := single[count - 1].(gpioClear := {});
    assert single[..count] == LastCleaned(s);
  }

  // ---------- what the interrupt does, on values ----------

  /** The part of the driver that the interrupt sees: two tables (only the entries in use), the table that the
      next boundary will switch to, the one being played and the position in it; the output register and the
      last value loaded into the timer. pwm_single and pwm_channel always point into the same table. */
  datatype Player = Player(
    tables: seq<seq<Single>>,
    toggle: nat,
    playing: nat,
    current: nat,
    timerDown: bool,
    high: set<nat>,
    load: int)
  {
    ghost predicate Valid() {
      && |tables| == 2 && toggle < 2 && playing < 2
      && tables[toggle] != [] && tables[playing] != []
    }

    /** The next interrupt is a period boundary. */
    predicate AtBoundary()
      requires playing < |tables|
    {
      current >= |tables[playing]| - 1
    }
  }

  /** pwm_tim1_intr_handler */
  function Interrupt(p: Player): (q: Player)
    requires p.Valid()
    ensures q.Valid()
  {
    if p.AtBoundary() then
      var t := p.tables[p.toggle];
      var r := p.(playing := p.toggle, current := 0, high := Output(p.high, t[|t| - 1]));
      if |t| != 1 then r.(load := t[0].hTime) else r.(timerDown := true)
    else
      var t := p.tables[p.playing];
      p.(high := Output(p.high, t[p.current]), current := p.current + 1, load := t[p.current + 1].hTime)
  }

  /** The last steps of pwm_start, once `table` is compiled into the table that is not next. */
  function Started(p: Player, table: seq<Single>): Player
    requires |p.tables| == 2 && p.toggle < 2 && table != []
  {
    var local := 1 - p.toggle;
    var q := p.(tables := p.tables[local := table], toggle := local);
    if p.timerDown then
      var r := q.(playing := local, high := Output(p.high, table[0]));
      if |table| != 1 then r.(timerDown := false, load := table[0].hTime) else r
    else
      q
  }

  /** What the table being compiled held before does not matter. */
  lemma StartedIgnoresLocal(p: Player, q: Player, table: seq<Single>)
    requires |p.tables| == |q.tables| == 2 && p.toggle < 2 && table != []
    requires p.tables[p.toggle] == q.tables[p.toggle] && p == q.(tables := p.tables)
    ensures Started(p, table) == Started(q, table)
  {
    assert p.tables[1 - p.toggle := table] == q.tables[1 - p.toggle := table];
  }

  /** A constant schedule does not start the timer. */
  lemma StartedConstant(p: Player, table: seq<Single>)
    requires |p.tables| == 2 && p.toggle < 2 && p.timerDown && |table| == 1
    ensures var q := Started(p, table); q.Valid() && q.timerDown && q.tables[q.toggle] == table
  {
  }

  function Interrupts(p: Player, k: nat): (q: Player)
    requires p.Valid()
    ensures q.Valid()
  {
    if k == 0 then p else Interrupt(Interrupts(p, k - 1))
  }

  /** From a boundary on, the k-th interrupt starts interval k of the newest table. */
  lemma {:induction false} InterruptsPlayTable(p: Player, k: nat)
    requires p.Valid() && p.AtBoundary() && k < |p.tables[p.toggle]|
    ensures var q, table := Interrupts(p, k + 1), p.tables[p.toggle];
            && q.tables == p.tables && q.toggle == q.playing == p.toggle && q.current == k
            && q.high == HighDuring(table, p.high, k)
            && (if |table| > 1 then q.load == table[k].hTime && q.timerDown == p.timerDown else q.timerDown)
            && (q.AtBoundary() <==> k == |table| - 1)
  {
    if k == 0 {
      assert Interrupts(p, 0) == p;
    } else {
      InterruptsPlayTable(p, k - 1);
      assert Interrupts(p, k + 1) == Interrupt(Interrupts(p, k));
    }
  }

  /** Whatever waveform the newest table plays, the interrupts of the next period put it out. */
  lemma PeriodIsPlayed(p: Player, w: Wave, k: nat, t: nat, i: nat)
    requires p.Valid() && p.AtBoundary() && w.Valid() && i < |w.pins| && Plays(p.tables[p.toggle], w)
    requires var table := p.tables[p.toggle]; k < |table| && SumTo(table, k) <= t < SumTo(table, k + 1)
    ensures var q, table := Interrupts(p, k + 1), p.tables[p.toggle];
            && (w.pins[i] in q.high <==> t < w.ends[i])
            && (if |table| > 1 then q.load == table[k].hTime > 0 && q.timerDown == p.timerDown else q.timerDown)
            && SumTo(table, |table|) == w.total
            && (q.AtBoundary() <==> k == |table| - 1)
            && q.tables == p.tables && q.toggle == p.toggle
  {
    InterruptsPlayTable(p, k);
    WaveIsPlayed(p.tables[p.toggle], w, p.high, k, t, i);
  }

  /** The waveform of the driver. Once a start has compiled `cfg` and no further start follows, each period
      from the next boundary on takes 5 * cfg.period ticks in non-empty intervals, interval k begins with the
      (k+1)-th interrupt, and at tick t of it channel i is high exactly when t is less than
      5 * floor(period * duty / 1023). */
  lemma PeriodWaveform(p: Player, cfg: Config, k: nat, t: nat, i: nat)
    requires p.Valid() && p.AtBoundary() && cfg.Valid() && i < |cfg.pins|
    requires p.tables[p.toggle] == Compile(WaveOf(cfg))
    requires var table := p.tables[p.toggle]; k < |table| && SumTo(table, k) <= t < SumTo(table, k + 1)
    ensures var q, table := Interrupts(p, k + 1), p.tables[p.toggle];
            && (cfg.pins[i] in q.high <==> t < 5 * (cfg.period * cfg.duty[i] / DEPTH))
            && (if |table| > 1 then q.load == table[k].hTime > 0 && q.timerDown == p.timerDown else q.timerDown)
            && SumTo(table, |table|) == 5 * cfg.period
            && (q.AtBoundary() <==> k == |table| - 1)
            && q.tables == p.tables && q.toggle == p.toggle
  {
    WaveOfExact(cfg);
    CompilePlays(WaveOf(cfg));
    PeriodIsPlayed(p, WaveOf(cfg), k, t, i);
  }

  // ---------- the driver ----------

  /** The pins of the first n channels. */
  function PinsOf(io: seq<int>, n: nat): (s: seq<nat>)
    ensures |s| == n
  {
    seq(n, i requires 0 <= i < n => if i < |io| && 0 <= io[i] < CHANNELS then PIN_NUM[io[i]] else 0)
  }

  ghost predicate ChannelsOk(io: seq<int>, duty: seq<nat>, n: nat, gpio: set<nat>) {
    && |duty| == |io| == CHANNELS && n <= CHANNELS
    && (forall i | 0 <= i < n :: 0 <= io[i] < CHANNELS)
    && (forall i | n <= i < CHANNELS :: io[i] == -1)
    && (forall i, j | 0 <= i < j < n :: io[i] != io[j])
    && (forall i | 0 <= i < CHANNELS :: duty[i] <= DEPTH)
    && gpio == PinSet(PinsOf(io, n))
  }

  lemma PinNumsDiffer(a: nat, b: nat)
    requires a < CHANNELS && b < CHANNELS && a != b
    ensures PIN_NUM[a] != PIN_NUM[b]
  {
  }

  lemma PinsDiffer(io: seq<int>, duty: seq<nat>, n: nat, gpio: set<nat>, channel: int)
    requires ChannelsOk(io, duty, n, gpio) && 0 <= channel < CHANNELS
    requires forall k | 0 <= k < n :: io[k] != channel
    ensures PIN_NUM[channel] !in PinsOf(io, n)
  {
    forall k | 0 <= k < n ensures PinsOf(io, n)[k] != PIN_NUM[channel] {
      PinNumsDiffer(io[k], channel);
    }
  }

  /** The next free place taken by a channel that was not in use. */
  lemma AddedOk(io: seq<int>, duty: seq<nat>, n: nat, gpio: set<nat>, channel: int)
    requires ChannelsOk(io, duty, n, gpio) && 0 <= channel < CHANNELS && n < CHANNELS
    requires forall k | 0 <= k < n :: io[k] != channel
    ensures ChannelsOk(io[n := channel], duty[n := 0], n + 1, gpio + {PIN_NUM[channel]})
    ensures PinsOf(io[n := channel], n + 1) == PinsOf(io, n) + [PIN_NUM[channel]]
    ensures PIN_NUM[channel] !in PinsOf(io, n)
  {
    PinsDiffer(io, duty, n, gpio, channel);
    var pins := PinsOf(io, n);
    assert PinsOf(io[n := channel], n + 1) == pins + [PIN_NUM[channel]];
    PinSetAppend(pins, PIN_NUM[channel]);
  }

  /** With as many channels as places, all channels are in use. */
  lemma AllInUse(io: seq<int>, duty: seq<nat>, gpio: set<nat>, channel: int)
    requires ChannelsOk(io, duty, CHANNELS, gpio) && 0 <= channel < CHANNELS
    ensures exists k :: 0 <= k < CHANNELS && io[k] == channel
  {
    if channel !in io {
      var all: set<int> := {0, 1, 2, 3, 4, 5, 6, 7};
      var used := set k | 0 <= k < CHANNELS :: io[k];
      DistinctCount(io, CHANNELS);
      assert used <= all - {channel};
      SmallerSet(used, all - {channel});
    }
  }

  lemma {:induction false} DistinctCount(io: seq<int>, n: nat)
    requires n <= |io| && forall i, j | 0 <= i < j < n :: io[i] != io[j]
    ensures |set k | 0 <= k < n :: io[k]| == n
  {
    if n > 0 {
      DistinctCount(io, n - 1);
      assert (set k | 0 <= k < n :: io[k]) == (set k | 0 <= k < n - 1 :: io[k]) + {io[n - 1]};
    }
  }

  lemma SmallerSet(a: set<int>, b: set<int>)
    requires a <= b
    ensures |a| <= |b|
  {
    assert |b - a| + |a| == |(b - a) + a|;
    assert (b - a) + a == b;
  }

  lemma PinSetAppend(pins: seq<nat>, pin: nat)
    ensures PinSet(pins + [pin]) == PinSet(pins) + {pin}
  {
    assert (pins + [pin])[|pins|] == pin;
    forall p | p in pins ensures p in pins + [pin] {
      var k :| 0 <= k < |pins| && pins[k] == p;
      assert (pins + [pin])[k] == p;
    }
  }

  /** Place i removed: the places behind it move down, and the last one in use becomes free. */
  function Without<T>(s: seq<T>, i: nat, n: nat, free: T): (r: seq<T>)
    requires i < n <= |s|
    ensures |r| == |s|
  {
    s[..i] + s[i + 1..n] + [free] + s[n..]
  }

  lemma WithoutIs<T>(s: seq<T>, i: nat, n: nat, free: T, r: seq<T>)
    requires i < n <= |s| == |r|
    requires forall k {:trigger r[k]} | 0 <= k < i || n <= k < |s| :: r[k] == s[k]
    requires forall k {:trigger r[k]} | i <= k < n - 1 :: r[k] == s[k + 1]
    requires r[n - 1] == free
    ensures r == Without(s, i, n, free)
  {
  }

  lemma WithoutOk(io: seq<int>, duty: seq<nat>, n: nat, gpio: set<nat>, i: nat)
    requires ChannelsOk(io, duty, n, gpio) && i < n
    ensures ChannelsOk(Without(io, i, n, -1), Without(duty, i, n, 0), n - 1, gpio - {PIN_NUM[io[i]]})
    ensures PinsOf(Without(io, i, n, -1), n - 1) == PinsOf(io, n)[..i] + PinsOf(io, n)[i + 1..]
    ensures Without(duty, i, n, 0)[..n - 1] == duty[..n][..i] + duty[..n][i + 1..]
  {
    var io', pins := Without(io, i, n, -1), PinsOf(io, n);
    var rest := PinsOf(io', n - 1);
    assert rest == pins[..i] + pins[i + 1..];
    forall k | 0 <= k < n && k != i ensures pins[k] != pins[i] {
      PinNumsDiffer(io[k], io[i]);
    }
    PinSetWithout(pins, i, rest);
  }

  lemma PinSetWithout(pins: seq<nat>, i: nat, rest: seq<nat>)
    requires i < |pins| && rest == pins[..i] + pins[i + 1..]
    requires forall k | 0 <= k < |pins| && k != i :: pins[k] != pins[i]
    ensures PinSet(rest) == PinSet(pins) - {pins[i]}
  {
    forall p | p in pins && p != pins[i] ensures p in rest {
      var k :| 0 <= k < |pins| && pins[k] == p;
      assert rest[if k < i then k else k - 1] == p;
    }
  }

  class Pwm {
    // struct pwm_param
    var period: nat
    var freq: nat
    var duty: seq<nat>
    // channels in use: indices into PIN_NUM, -1 for a free place
    var outIoNum: seq<int>
    var channelNum: nat
    var gpio: set<nat>
    // tables
    const single0: array<Single>
    const single1: array<Single>
    var channel0: nat
    var channel1: nat
    var toggle: nat
    var playing: nat
    var current: nat
    var timerDown: bool
    // hardware: GPIO output register, FRC1 load register
    var high: set<nat>
    var load: int

    ghost predicate ChannelsValid()
      reads `period, `duty, `outIoNum, `channelNum, `gpio
    {
      ChannelsOk(outIoNum, duty, channelNum, gpio) && 1 <= period <= ONE_SECOND
    }

    ghost predicate TablesValid()
      reads `channel0, `channel1, `toggle, `playing
    {
      && single0.Length == single1.Length == CHANNELS + 1 && single0 != single1
      && channel0 <= CHANNELS + 1 && channel1 <= CHANNELS + 1
      && toggle < 2 && playing < 2
    }

    ghost predicate Valid()
      reads this
    {
      ChannelsValid() && TablesValid()
    }

    ghost function Pins(): (s: seq<nat>)
      reads `outIoNum, `channelNum
    {
      PinsOf(outIoNum, channelNum)
    }

    ghost function Cfg(): Config
      reads `period, `duty, `outIoNum, `channelNum, `gpio
      requires channelNum <= |duty|
    {
      Config(Pins(), duty[..channelNum], period, gpio)
    }

    ghost function Play(): Player
      reads this, single0, single1
      requires TablesValid()
    {
      Player([single0[..channel0], single1[..channel1]], toggle, playing, current, timerDown, high, load)
    }

    lemma CfgValid()
      requires ChannelsValid()
      ensures Cfg().Valid()
    {
      forall i, j | 0 <= i < j < channelNum ensures Pins()[i] != Pins()[j] {
        PinNumsDiffer(outIoNum[i], outIoNum[j]);
      }
    }

    /** Step 1 of pwm_start. */
    method Fill(single: array<Single>)
      requires ChannelsValid() && single.Length == CHANNELS + 1
      modifies single
      ensures single[..channelNum + 1] == Entries(WaveOf(Cfg()))
    {
      ghost var w := WaveOf(Cfg());
      var i := 0;
      while i < channelNum
        invariant 0 <= i <= channelNum
        invariant forall k {:trigger single[k]} | 0 <= k < i :: single[k] == Single({}, {w.pins[k]}, w.ends[k])
      {
        single[i] := Single({}, {PIN_NUM[outIoNum[i]]}, UsToTicks(DutyUs(period, duty[i])));
        i := i + 1;
      }
      single[channelNum] := Single(gpio, {}, UsToTicks(period));
    }

    /** pwm_start */
    method Start()
      requires Valid()
      modifies `channel0, `channel1, `toggle, `playing, `timerDown, `high, `load
      modifies if toggle == 1 then single0 else single1
      ensures Valid() && Cfg() == old(Cfg())
      ensures Compile(WaveOf(Cfg())) != [] && Play() == Started(old(Play()), Compile(WaveOf(Cfg())))
    {
      var local := 1 - toggle;
      var single := if local == 0 then single0 else single1;
      ghost var before := Play();
      var count := CompileInto(single);
      ghost var table := single[..count];
      StartedIgnoresLocal(before, Play(), table);
      Finish(local, single, count);
    }

    /** Steps 1 to 6 of pwm_start. */
    method CompileInto(single: array<Single>) returns (count: nat)
      requires ChannelsValid() && single.Length == CHANNELS + 1
      modifies single
      ensures 0 < count <= single.Length && single[..count] == Compile(WaveOf(Cfg()))
    {
      CfgValid();
      WaveOfExact(Cfg());
      Fill(single);
      count := Schedule(single, channelNum, WaveOf(Cfg()));
    }

    /** The end of pwm_start, after its steps 1 to 6 have compiled the table `local`. */
    method Finish(local: nat, single: array<Single>, count: nat)
      requires TablesValid() && local == 1 - toggle && single == (if local == 0 then single0 else single1)
      requires 0 < count <= single.Length
      modifies `channel0, `channel1, `toggle, `playing, `timerDown, `high, `load
      ensures TablesValid() && Play() == Started(old(Play()), single[..count])
    {
      ghost var before := Play();
      if local == 0 {
        channel0 := count;
      } else {
        channel1 := count;
      }
      assert Play().tables == before.tables[local := single[..count]];
      if timerDown {
        playing := local;
        high := Output(high, single[0]);
        if count != 1 {
          timerDown := false;
          load := single[0].hTime;
        }
      }
      toggle := if toggle == 1 then 0 else 1;
    }

    /** pwm_tim1_intr_handler */
    method TimerInterrupt()
      requires TablesValid() && Play().Valid()
      modifies `playing, `current, `timerDown, `high, `load
      ensures TablesValid() && Play() == Interrupt(old(Play()))
    {
      var localToggle := toggle;
      var channel := if playing == 0 then channel0 else channel1;
      if current >= channel - 1 {
        playing := localToggle;
        var single := if playing == 0 then single0 else single1;
        channel := if playing == 0 then channel0 else channel1;
        high := Output(high, single[channel - 1]);
        current := 0;
        if channel != 1 {
          load := single[current].hTime;
        } else {
          timerDown := true;
        }
      } else {
        var single := if playing == 0 then single0 else single1;
        high := Output(high, single[current]);
        current := current + 1;
        load := single[current].hTime;
      }
    }

    /** pwm_set_duty */
    method SetDuty(newDuty: nat, channel: int)
      requires ChannelsValid()
      modifies `duty
      ensures ChannelsValid() && Pins() == old(Pins())
      ensures forall i | 0 <= i < channelNum ::
                duty[i] == if outIoNum[i] == channel then (if newDuty < DEPTH then newDuty else DEPTH) else old(duty[i])
    {
      var i := 0;
      while i < channelNum
        invariant 0 <= i <= channelNum
        invariant forall k | 0 <= k < i :: outIoNum[k] != channel
      {
        if outIoNum[i] == channel {
          break;
        }
        i := i + 1;
      }
      if i == channelNum {
        return;
      }
      if newDuty < 1 {
        duty := duty[i := 0];
      } else if newDuty >= DEPTH {
        duty := duty[i := DEPTH];
      } else {
        duty := duty[i := newDuty];
      }
      assert Pins() == old(Pins());
    }

    /** pwm_set_freq: one frequency for all channels. */
    method SetFreq(newFreq: nat)
      modifies `freq, `period
      ensures freq == if newFreq > FREQ_MAX then FREQ_MAX else if newFreq < 1 then 1 else newFreq
      ensures period == ONE_SECOND / freq && 1 <= period <= ONE_SECOND
      ensures ChannelsOk(outIoNum, duty, channelNum, gpio) ==> ChannelsValid()
    {
      if newFreq > FREQ_MAX {
        freq := FREQ_MAX;
      } else if newFreq < 1 {
        freq := 1;
      } else {
        freq := newFreq;
      }
      period := ONE_SECOND / freq;
    }

    /** pwm_add: the channel of a pin, -1 if the pin cannot be used. A new channel comes last, with duty 0. */
    method Add(pinId: nat) returns (channel: int)
      requires ChannelsValid()
      modifies `outIoNum, `duty, `gpio, `channelNum
      ensures ChannelsValid()
      ensures channel == -1 <==> pinId !in {0, 2, 4, 5, 12, 13, 14, 15}
      ensures channel == -1 ==> Cfg() == old(Cfg())
      ensures channel != -1 ==> 0 <= channel < CHANNELS && PIN_NUM[channel] == pinId
      ensures channel != -1 ==> Cfg() == if pinId in old(Pins()) then old(Cfg()) else
                Config(old(Pins()) + [pinId], old(Cfg().duty) + [0], period, old(gpio) + {pinId})
    {
      channel := ChannelOf(pinId);
      if channel == -1 {
        return;
      }
      var i := PlaceOf(channel);
      if outIoNum[i] == channel {
        assert Pins()[i] == pinId;
      } else {
        Occupy(channel);
      }
    }

    /** Lines 384-399: the place of the channel, or the first free one; there is always one of these. */
    method PlaceOf(channel: nat) returns (i: nat)
      requires ChannelsValid() && channel < CHANNELS
      ensures i < CHANNELS
      ensures if outIoNum[i] == channel then i < channelNum
              else i == channelNum && forall k | 0 <= k < channelNum :: outIoNum[k] != channel
    {
      i := 0;
      while i < CHANNELS
        invariant i <= channelNum && forall k | 0 <= k < i :: outIoNum[k] != channel
      {
        if outIoNum[i] == channel || outIoNum[i] == -1 {
          return;
        }
        i := i + 1;
      }
      AllInUse(outIoNum, duty, gpio, channel);
      assert false;
    }

    /** Lines 390-395: a new channel in the first free place. */
    method Occupy(channel: nat)
      requires ChannelsValid() && channel < CHANNELS && channelNum < CHANNELS
      requires forall k | 0 <= k < channelNum :: outIoNum[k] != channel
      modifies `outIoNum, `duty, `gpio, `channelNum
      ensures ChannelsValid() && PIN_NUM[channel] !in old(Pins())
      ensures Cfg() == Config(old(Pins()) + [PIN_NUM[channel]], old(Cfg().duty) + [0], period, old(gpio) + {PIN_NUM[channel]})
    {
      AddedOk(outIoNum, duty, channelNum, gpio, channel);
      outIoNum := outIoNum[channelNum := channel];
      duty := duty[channelNum := 0];
      gpio := gpio + {PIN_NUM[channel]};
      channelNum := channelNum + 1;
    }

    /** Lines 374-380: the place of the pin among those that can be used, or -1. */
    method ChannelOf(pinId: nat) returns (channel: int)
      ensures if channel == -1 then pinId !in PIN_NUM else 0 <= channel < CHANNELS && PIN_NUM[channel] == pinId
    {
      channel := -1;
      var i := 0;
      while i < CHANNELS
        invariant 0 <= i <= CHANNELS && channel == -1
        invariant forall k | 0 <= k < i :: PIN_NUM[k] != pinId
      {
        if PIN_NUM[i] == pinId {
          channel := i;
          break;
        }
        i := i + 1;
      }
    }

    /** pwm_delete: the later channels move up. It returns true in every case. */
    method Delete(channel: int) returns (r: bool)
      requires ChannelsValid()
      modifies `outIoNum, `duty, `gpio, `channelNum
      ensures ChannelsValid() && r
      ensures (forall i | 0 <= i < old(channelNum) :: old(outIoNum)[i] != channel) ==> Cfg() == old(Cfg())
      ensures forall i | 0 <= i < old(channelNum) && old(outIoNum)[i] == channel ::
                && Pins() == old(Pins())[..i] + old(Pins())[i + 1..]
                && Cfg().duty == old(Cfg().duty)[..i] + old(Cfg().duty)[i + 1..]
    {
      var i := 0;
      while i < channelNum
        invariant 0 <= i <= channelNum
        invariant forall k | 0 <= k < i :: outIoNum[k] != channel
      {
        if outIoNum[i] == channel {
          RemoveAt(i);
          return true;
        }
        i := i + 1;
      }
      assert Cfg() == old(Cfg());
      return true;
    }

    method RemoveAt(i: nat)
      requires ChannelsValid() && i < channelNum
      modifies `outIoNum, `duty, `gpio, `channelNum
      ensures ChannelsValid()
      ensures Pins() == old(Pins())[..i] + old(Pins())[i + 1..]
      ensures Cfg().duty == old(Cfg().duty)[..i] + old(Cfg().duty)[i + 1..]
    {
      WithoutOk(outIoNum, duty, channelNum, gpio, i);
      gpio := gpio - {PIN_NUM[outIoNum[i]]};
      ShiftChannels(i);
      channelNum := channelNum - 1;
    }

    /** The places behind i move down, and the last one in use becomes free. */
    method ShiftChannels(i: nat)
      requires |outIoNum| == |duty| == CHANNELS && i < channelNum <= CHANNELS
      modifies `outIoNum, `duty
      ensures outIoNum == Without(old(outIoNum), i, channelNum, -1) && duty == Without(old(duty), i, channelNum, 0)
    {
      ghost var io0, duty0 := outIoNum, duty;
      outIoNum := outIoNum[i := -1];
      var j := i;
      while j < channelNum - 1
        invariant i <= j <= channelNum - 1
        invariant |outIoNum| == |duty| == CHANNELS
        invariant forall k {:trigger outIoNum[k]} | 0 <= k < i || j < k < CHANNELS :: outIoNum[k] == io0[k]
        invariant forall k {:trigger outIoNum[k]} | i <= k < j :: outIoNum[k] == io0[k + 1]
        invariant forall k {:trigger duty[k]} | 0 <= k < i || j <= k < CHANNELS :: duty[k] == duty0[k]
        invariant forall k {:trigger duty[k]} | i <= k < j :: duty[k] == duty0[k + 1]
      {
        outIoNum := outIoNum[j := outIoNum[j + 1]];
        duty := duty[j := duty[j + 1]];
        j := j + 1;
      }
      outIoNum := outIoNum[channelNum - 1 := -1];
      duty := duty[channelNum - 1 := 0];
      WithoutIs(io0, i, channelNum, -1, outIoNum);
      WithoutIs(duty0, i, channelNum, 0, duty);
    }

    /** The static state before any call. */
    constructor ()
      ensures ChannelsOk(outIoNum, duty, channelNum, gpio) && TablesValid()
      ensures channelNum == 0 && Play() == Player([[], []], 1, 0, 0, true, {}, 0)
    {
      outIoNum := seq(CHANNELS, i => -1);
      duty := seq(CHANNELS, i => 0);
      channelNum, gpio := 0, {};
      single0 := new Single[CHANNELS + 1](i => Single({}, {}, 0));
      single1 := new Single[CHANNELS + 1](i => Single({}, {}, 0));
      channel0, channel1 := 0, 0;
      toggle, playing, current, timerDown := 1, 0, 0, true;
      high, load := {}, 0;
      freq, period := 0, 0;
    }

    /** pwm_init, which runs before any channel is added: 500 Hz, and a first table that leaves the timer down. */
    method Init()
      requires ChannelsOk(outIoNum, duty, channelNum, gpio) && TablesValid()
      requires channelNum == 0 && timerDown
      modifies `duty, `gpio, `freq, `period
      modifies `channel0, `channel1, `toggle, `playing, `timerDown, `high, `load
      modifies if toggle == 1 then single0 else single1
      ensures Valid() && period == 2000 && channelNum == 0
      ensures Play().Valid() && timerDown && Play().tables[toggle] == Compile(WaveOf(Cfg()))
    {
      Reset();
      ghost var before, w := Play(), WaveOf(Cfg());
      CompileNoChannels(w);
      StartedConstant(before, Compile(w));
      Start();
    }

    /** Lines 355-360. */
    method Reset()
      requires ChannelsOk(outIoNum, duty, channelNum, gpio) && channelNum == 0
      modifies `duty, `gpio, `freq, `period
      ensures ChannelsValid() && period == 2000
    {
      gpio := {};
      duty := seq(CHANNELS, i => 0);
      SetFreq(500);
    }
  }

  /** Without channels the table has just the period entry, so the timer stays down. */
  lemma CompileNoChannels(w: Wave)
    requires w.pins == [] && w.ends == [] && w.total != 0
    ensures |Compile(w)| == 1
  {
    var s := Entries(w);
    assert s == [Single(w.gpio, {}, w.total)];
    assert s[..0] == [];
    assert InsertSorted(s[..0]) == [];
    assert InsertSorted(s) == s;
    assert Edges(w) == s;
  }
}
