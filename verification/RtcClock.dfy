/** esp8266/machine_rtc.c on values: a clock kept by a 32-bit tick counter that is read now and then, against the
    clock that never wraps. */
module RtcClock {

  const TWO32 := 0x1_0000_0000
  const TWO64 := 0x1_0000_0000_0000_0000

  type Word = n: int | 0 <= n < 0x1_0000_0000
  type Long = n: int | 0 <= n < 0x1_0000_0000_0000_0000

  /** k * c */
  function Product(k: nat, c: nat): nat {
    if k == 0 then 0 else Product(k - 1, c) + c
  }

  lemma {:induction false} ProductIs(k: nat, c: nat)
    ensures Product(k, c) == k * c
  {
    if k > 0 {
      ProductIs(k - 1, c);
      assert k * c == (k - 1) * c + c;
    }
  }

  lemma {:induction false} ProductOfSum(j: nat, k: nat, c: nat)
    ensures Product(j + k, c) == Product(j, c) + Product(k, c)
  {
    if k > 0 {
      ProductOfSum(j, k - 1, c);
    }
  }

  /** The microseconds of a number of ticks: (ticks * cal) >> 12. */
  function Us(ticks: nat, cal: nat): nat {
    Product(ticks, cal) / 4096
  }

  lemma UsIsShifted(ticks: nat, cal: nat)
    ensures Us(ticks, cal) == ticks * cal / 4096
  {
    ProductIs(ticks, cal);
  }

  /** What a full round of the counter is worth: cal << 20. */
  function Lap(cal: nat): nat {
    cal * 0x10_0000
  }

  /** A 64-bit result. The signed delta and the unsigned time have the same bits. */
  function Wrap(n: int): Long {
    n % 0x1_0000_0000_0000_0000
  }

  /** The stored calibration and offset, and the counter when it was read last. */
  datatype State = State(cal: Word, delta: Long, last: Word)

  /** pyb_rtc_set_us_since_2000, with the calibration and the counter that the hardware gives. */
  function Set(now: Long, cal: Word, ticks: Word): State {
    State(cal, Wrap(now - Us(ticks, cal)), ticks)
  }

  /** pyb_rtc_get_us_since_2000: the new state and the time. */
  function Get(s: State, ticks: Word): (State, Long) {
    var delta := if ticks < s.last then Wrap(s.delta + Lap(s.cal)) else s.delta;
    (State(s.cal, delta, ticks), Wrap(Us(ticks, s.cal) + delta))
  }

  /** rtc_prepare_deepsleep, and the start after it, when the counter begins anew. */
  function Sleep(s: State, ticks: Word, sleepUs: Long, wake: Word): State {
    var (s', now) := Get(s, ticks);
    s'.(delta := Wrap(now + sleepUs), last := wake)
  }

  // ---------- the correction is exact ----------

  lemma {:induction false} Distribute(q: nat, cal: nat)
    ensures Product(q * TWO32, cal) == 4096 * Product(q, Lap(cal))
  {
    if q > 0 {
      Distribute(q - 1, cal);
      ProductOfSum((q - 1) * TWO32, TWO32, cal);
      ProductIs(TWO32, cal);
    }
  }

  /** Each overflow of the counter is worth cal << 20 microseconds, without a rounding error. */
  lemma OverflowIsExact(q: nat, r: nat, cal: nat)
    ensures Us(q * TWO32 + r, cal) == Product(q, Lap(cal)) + Us(r, cal)
  {
    Distribute(q, cal);
    ProductOfSum(q * TWO32, r, cal);
  }

  /** How many overflows there have been. */
  function Laps(ticks: nat): nat {
    ticks / 0x1_0000_0000
  }

  function Counter(ticks: nat): Word {
    ticks % 0x1_0000_0000
  }

  /** The state at a time at which the counter would be `ticks` if it did not overflow, of a clock that shows
      `base` when it is zero. */
  ghost predicate Shows(s: State, base: int, ticks: nat) {
    && s.last == Counter(ticks)
    && s.delta == Wrap(base + Product(Laps(ticks), Lap(s.cal)))
  }

  /** The overflows between two reads that are not noticed. */
  function Missed(before: nat, now: nat): (m: nat)
    requires before <= now
    ensures m == 0 <==> now - before < TWO32
  {
    Laps(now) - Laps(before) - Noticed(before, now)
  }

  function Noticed(before: nat, now: nat): nat {
    if Counter(now) < Counter(before) then 1 else 0
  }

  lemma LapsSplit(before: nat, now: nat, c: nat)
    requires before <= now
    ensures Product(Laps(now), c)
            == Product(Laps(before), c) + (if Noticed(before, now) == 1 then c else 0) + Product(Missed(before, now), c)
  {
    assert Product(1, c) == Product(0, c) + c;
    ProductOfSum(Laps(before), Noticed(before, now), c);
    ProductOfSum(Laps(before) + Noticed(before, now), Missed(before, now), c);
  }

  /** What the clock returns, whenever it is read: the time, less cal << 20 for each missed overflow; no overflow
      is missed exactly if less than one round has passed. */
  lemma GetReturns(s: State, base: int, before: nat, now: nat)
    requires Shows(s, base, before) && before <= now
    ensures Get(s, Counter(now)).1 == Wrap(base + Us(now, s.cal) - Product(Missed(before, now), Lap(s.cal)))
  {
    var c := Lap(s.cal);
    LapsSplit(before, now, c);
    OverflowIsExact(Laps(now), Counter(now), s.cal);
    assert now == Laps(now) * TWO32 + Counter(now);
    var k := if Noticed(before, now) == 1 then c else 0;
    WrapSum(base + Product(Laps(before), c), k);
    WrapSum(base + Product(Laps(before), c) + k, Us(Counter(now), s.cal));
  }

  lemma WrapSum(a: int, b: int)
    ensures Wrap(Wrap(a) + b) == Wrap(a + b)
  {
  }

  /** Read at least once a round, the clock is right and stays so. */
  lemma GetIsRight(s: State, base: int, before: nat, now: nat)
    requires Shows(s, base, before) && before <= now < before + TWO32
    ensures Get(s, Counter(now)).1 == Wrap(base + Us(now, s.cal))
    ensures Shows(Get(s, Counter(now)).0, base, now)
  {
    GetReturns(s, base, before, now);
    var c := Lap(s.cal);
    LapsSplit(before, now, c);
    WrapSum(base + Product(Laps(before), c), if Noticed(before, now) == 1 then c else 0);
  }

  /** For any calibration that is not zero, as long as missed overflows add up to less than 2^64 microseconds, the
      clock is right exactly if none is missed. */
  lemma GetIsRightIff(s: State, base: int, before: nat, now: nat)
    requires Shows(s, base, before) && before <= now
    requires 0 < s.cal && Product(Missed(before, now), Lap(s.cal)) < TWO64
    ensures Get(s, Counter(now)).1 == Wrap(base + Us(now, s.cal)) <==> now - before < TWO32
  {
    GetReturns(s, base, before, now);
    var m := Product(Missed(before, now), Lap(s.cal));
    if m > 0 {
      WrapDiffers(base + Us(now, s.cal), m);
    }
  }

  lemma WrapDiffers(a: int, d: int)
    requires 0 < d < TWO64
    ensures Wrap(a) != Wrap(a - d)
  {
  }

  /** Setting the clock makes it show the time. */
  lemma SetShows(now: Long, cal: Word, ticks: nat)
    ensures Shows(Set(now, cal, Counter(ticks)), now - Us(ticks, cal), ticks)
  {
    OverflowIsExact(Laps(ticks), Counter(ticks), cal);
    assert ticks == Laps(ticks) * TWO32 + Counter(ticks);
  }

  /** Over a deep sleep the clock goes on by the time slept, from the time at which it begins. */
  lemma SleepShows(s: State, base: int, before: nat, now: nat, sleepUs: Long, wake: Word)
    requires Shows(s, base, before) && before <= now < before + TWO32
    ensures Shows(Sleep(s, Counter(now), sleepUs, wake), base + Us(now, s.cal) + sleepUs, wake)
  {
    GetIsRight(s, base, before, now);
    WrapSum(base + Us(now, s.cal), sleepUs);
  }

  // ---------- runs ----------

  /** What happens after `elapsed` more ticks: the clock is set, or read, or the system sleeps and the counter
      is `wake` when it starts again. */
  datatype Event = DoSet(elapsed: nat, now: Long, cal: Word) | DoGet(elapsed: nat) | DoSleep(elapsed: nat, us: Long, wake: Word)

  /** A clock that does not overflow: what it shows at tick zero, and the ticks. */
  datatype Reference = Reference(base: int, cal: Word, ticks: nat)

  function Time(r: Reference): int {
    r.base + Us(r.ticks, r.cal)
  }

  /** The reference after an event, and the time that it returns. */
  function RefStep(r: Reference, e: Event): (Reference, int) {
    var r' := r.(ticks := r.ticks + e.elapsed);
    match e
    case DoSet(_, now, cal) => (r'.(base := now - Us(r'.ticks, cal), cal := cal), now)
    case DoGet(_) => (r', Time(r'))
    case DoSleep(_, us, wake) => (Reference(Time(r') + us, r.cal, wake), Time(r'))
  }

  /** The clock after an event; the counter is that of the reference. */
  function Step(s: State, ticks: nat, e: Event): (State, Long) {
    var c := Counter(ticks + e.elapsed);
    match e
    case DoSet(_, now, cal) => (Set(now, cal, c), now)
    case DoGet(_) => Get(s, c)
    case DoSleep(_, us, wake) => (Sleep(s, c, us, wake), Get(s, c).1)
  }

  function Times(s: State, r: Reference, es: seq<Event>): seq<Long>
    decreases |es|
  {
    if es == [] then []
    else [Step(s, r.ticks, es[0]).1] + Times(Step(s, r.ticks, es[0]).0, RefStep(r, es[0]).0, es[1..])
  }

  function RefTimes(r: Reference, es: seq<Event>): seq<int>
    decreases |es|
  {
    if es == [] then [] else [RefStep(r, es[0]).1] + RefTimes(RefStep(r, es[0]).0, es[1..])
  }

  ghost predicate Follows(s: State, r: Reference) {
    s.cal == r.cal && Shows(s, r.base, r.ticks)
  }

  /** At least one event in each round of the counter. */
  ghost predicate OftenEnough(es: seq<Event>) {
    forall i | 0 <= i < |es| :: es[i].elapsed < TWO32
  }

  lemma StepFollows(s: State, r: Reference, e: Event)
    requires Follows(s, r) && e.elapsed < TWO32
    ensures Follows(Step(s, r.ticks, e).0, RefStep(r, e).0)
    ensures Step(s, r.ticks, e).1 == Wrap(RefStep(r, e).1)
  {
    var now := r.ticks + e.elapsed;
    match e {
      case DoSet(_, t, cal) => SetFollows(s, r, now, t, cal);
      case DoGet(_) => GetFollows(s, r, now);
      case DoSleep(_, us, wake) => SleepFollows(s, r, now, us, wake);
    }
  }

  lemma SetFollows(s: State, r: Reference, now: nat, t: Long, cal: Word)
    ensures Follows(Set(t, cal, Counter(now)), Reference(t - Us(now, cal), cal, now))
    ensures Wrap(t) == t
  {
    SetShows(t, cal, now);
  }

  lemma GetFollows(s: State, r: Reference, now: nat)
    requires Follows(s, r) && r.ticks <= now < r.ticks + TWO32
    ensures Follows(Get(s, Counter(now)).0, r.(ticks := now))
    ensures Get(s, Counter(now)).1 == Wrap(r.base + Us(now, r.cal))
  {
    GetIsRight(s, r.base, r.ticks, now);
  }

  lemma SleepFollows(s: State, r: Reference, now: nat, us: Long, wake: Word)
    requires Follows(s, r) && r.ticks <= now < r.ticks + TWO32
    ensures Follows(Sleep(s, Counter(now), us, wake), Reference(r.base + Us(now, r.cal) + us, r.cal, wake))
    ensures Get(s, Counter(now)).1 == Wrap(r.base + Us(now, r.cal))
  {
    GetIsRight(s, r.base, r.ticks, now);
    SleepShows(s, r.base, r.ticks, now, us, wake);
  }

  /** In every run with an event in each round of the counter, the clock returns the times of the clock that
      does not overflow. */
  lemma {:induction false} RunFollows(s: State, r: Reference, es: seq<Event>)
    requires Follows(s, r) && OftenEnough(es)
    ensures |Times(s, r, es)| == |RefTimes(r, es)| == |es|
    ensures forall i | 0 <= i < |es| :: Times(s, r, es)[i] == Wrap(RefTimes(r, es)[i])
    decreases |es|
  {
    if es != [] {
      StepFollows(s, r, es[0]);
      var s', r' := Step(s, r.ticks, es[0]).0, RefStep(r, es[0]).0;
      RunFollows(s', r', es[1..]);
      forall i | 0 <= i < |es| ensures Times(s, r, es)[i] == Wrap(RefTimes(r, es)[i]) {
        if i > 0 {
          assert Times(s, r, es)[i] == Times(s', r', es[1..])[i - 1];
          assert RefTimes(r, es)[i] == RefTimes(r', es[1..])[i - 1];
        }
      }
    }
  }

  lemma UsIsMonotone(a: nat, b: nat, cal: nat)
    requires a <= b
    ensures Us(a, cal) <= Us(b, cal)
  {
    ProductOfSum(a, b - a, cal);
  }

  ghost predicate NoSet(es: seq<Event>) {
    forall i | 0 <= i < |es| :: !es[i].DoSet?
  }

  /** Between two settings, that clock never goes back. */
  lemma {:induction false} ReferenceIsMonotone(r: Reference, es: seq<Event>)
    requires NoSet(es)
    ensures |RefTimes(r, es)| == |es|
    ensures forall i | 0 <= i < |es| :: Time(r) <= RefTimes(r, es)[i]
    ensures forall i, j | 0 <= i < j < |es| :: RefTimes(r, es)[i] <= RefTimes(r, es)[j]
    decreases |es|
  {
    if es != [] {
      var (r', t) := RefStep(r, es[0]);
      UsIsMonotone(r.ticks, r.ticks + es[0].elapsed, r.cal);
      ReferenceIsMonotone(r', es[1..]);
      assert t <= Time(r');
      forall i | 0 < i < |es| ensures RefTimes(r, es)[i] == RefTimes(r', es[1..])[i - 1] {
      }
    }
  }

  /** After setting the clock, a run of reads returns the time set plus the ticks since, converted once. */
  lemma ReadAfterSet(now: Long, cal: Word, t0: nat, t: nat)
    requires t0 <= t < t0 + TWO32
    ensures Get(Set(now, cal, Counter(t0)), Counter(t)).1 == Wrap(now + Us(t, cal) - Us(t0, cal))
  {
    SetShows(now, cal, t0);
    GetIsRight(Set(now, cal, Counter(t0)), now - Us(t0, cal), t0, t);
  }
}
