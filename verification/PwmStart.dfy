/** esp8266/esppwm.c: what pwm_start itself puts out, and the period that it begins, when the timer is down. */
module PwmStart {
  import opened PwmTable
  import opened EspPwm
  import opened PwmInterleaving

  ghost predicate CanStart(p: Player, w: Wave) {
    |p.tables| == 2 && p.toggle < 2 && p.timerDown && w.Valid()
  }

  // ---------- what the start puts out ----------

  /** A table with a single entry: the entry is the one of the boundary, so the levels are right at once. */
  lemma ConstantStart(p: Player, w: Wave)
    requires CanStart(p, w) && |Compile(w)| == 1
    ensures var q := Started(p, Compile(w));
            && q.timerDown && q.load == p.load && q.playing == q.toggle == 1 - p.toggle
            && |q.tables| == 2 && q.tables[q.toggle] == Compile(w)
            && (forall i | 0 <= i < |w.pins| :: w.pins[i] in q.high <==> w.ends[i] != 0)
            && (forall pin | pin !in w.gpio :: pin in q.high <==> pin in p.high)
  {
    var table, q := Compile(w), Started(p, Compile(w));
    CompilePlays(w);
    assert HighDuring(table, p.high, 0) == Output(p.high, table[0]);
    forall i | 0 <= i < |w.pins| ensures w.pins[i] in q.high <==> w.ends[i] != 0 {
      HighUntilCleared(table, w, p.high, 0, i);
    }
    forall pin | pin !in w.gpio ensures pin in q.high <==> pin in p.high {
      OtherPinsUntouched(table, w, p.high, 0, pin);
    }
  }

  /** A schedule with edges: the timer is loaded with the first interval. Its entry clears the channels that end with
      it, and it sets none. */
  lemma FirstOutput(p: Player, w: Wave)
    requires CanStart(p, w) && |Compile(w)| > 1
    ensures var q, first := Started(p, Compile(w)), Compile(w)[0].hTime;
            && !q.timerDown && q.load == first && 0 < first < w.total && q.playing == q.toggle == 1 - p.toggle
            && |q.tables| == 2 && q.tables[q.toggle] == Compile(w)
            && (forall pin :: pin in q.high <==> pin in p.high && !EndsAt(w, pin, first))
  {
    var table, q := Compile(w), Started(p, Compile(w));
    CompilePlays(w);
    assert SumTo(table, 1) == table[0].hTime by {
      assert SumTo(table, 0) == 0;
    }
    SumToIncreases(table, 1, |table|);
    forall pin ensures pin in q.high <==> pin in p.high && !EndsAt(w, pin, table[0].hTime) {
      assert pin in table[0].gpioClear <==> EndsAt(w, pin, SumTo(table, 0 + 1));
    }
  }

  /** While the timer runs, a start only changes the table that comes next. */
  lemma RunningStart(p: Player, table: seq<Single>)
    requires |p.tables| == 2 && p.toggle < 2 && !p.timerDown && table != []
    ensures var q := Started(p, table);
            && q.toggle == 1 - p.toggle && |q.tables| == 2
            && q.tables[q.toggle] == table && q.tables[p.toggle] == p.tables[p.toggle]
            && q.high == p.high && q.load == p.load && !q.timerDown
            && q.playing == p.playing && q.current == p.current
  {
    var q := Started(p, table);
    assert q.tables[1 - p.toggle] == table;
  }

  /** The same holds of the step that starts the timer, when the interrupt can come between the steps. */
  lemma PublishPutsOut(s: System, w: Wave)
    requires WellFormed(s) && Enabled(s, Publish) && s.p.timerDown && w.Valid()
    requires s.p.tables[s.task.local] == Compile(w)
    ensures var q, table := Next(s, Publish).p, Compile(w);
            && q.tables == s.p.tables && q.toggle == s.p.toggle && q.playing == s.task.local
            && q.high == Started(s.p.(toggle := 1 - s.task.local), table).high
            && (|table| == 1 ==> q.timerDown && forall i | 0 <= i < |w.pins| :: w.pins[i] in q.high <==> w.ends[i] != 0)
            && (|table| > 1 ==> !q.timerDown && q.load == table[0].hTime)
            && (|table| > 1 ==> forall pin :: pin in q.high <==> pin in s.p.high && !EndsAt(w, pin, table[0].hTime))
  {
    var p := s.p.(toggle := 1 - s.task.local);
    if |Compile(w)| == 1 {
      ConstantStart(p, w);
    } else {
      FirstOutput(p, w);
    }
  }

  // ---------- the first period ----------

  /** Whenever the timer is down, the position in the table is 0: it goes down at a boundary only. */
  lemma DownAtZero(s: System, step: Step)
    requires WellFormed(s) && Enabled(s, step) && (s.p.timerDown ==> s.p.current == 0)
    ensures Next(s, step).p.timerDown ==> Next(s, step).p.current == 0
  {
  }

  lemma StartedIsValid(p: Player, w: Wave)
    requires CanStart(p, w)
    ensures Compile(w) != [] && Started(p, Compile(w)).Valid()
  {
    CompilePlays(w);
  }

  /** The start and the first k interrupts put out the entries 0, 0, 1, ..., k - 1. */
  function FirstHigh(table: seq<Single>, before: set<nat>, k: nat): set<nat>
    requires k < |table|
  {
    if k == 0 then Output(before, table[0]) else Output(FirstHigh(table, before, k - 1), table[k - 1])
  }

  lemma {:induction false} FirstInterrupts(p: Player, table: seq<Single>, k: nat)
    requires |p.tables| == 2 && p.toggle < 2 && p.timerDown && p.current == 0 && k < |table| && 1 < |table|
    ensures Started(p, table).Valid()
    ensures var q := Interrupts(Started(p, table), k);
            && q.current == k && q.load == table[k].hTime && !q.timerDown
            && q.playing == q.toggle == 1 - p.toggle && q.tables[q.toggle] == table
            && q.high == FirstHigh(table, p.high, k)
  {
    var start := Started(p, table);
    assert start.tables[start.toggle] == table;
    if k == 0 {
      assert Interrupts(start, 0) == start;
    } else {
      FirstInterrupts(p, table, k - 1);
      assert Interrupts(start, k) == Interrupt(Interrupts(start, k - 1));
    }
  }

  /** None of the first k intervals, nor the first one, ends with the high time of channel i. */
  ghost predicate NotEnded(table: seq<Single>, w: Wave, i: nat, k: nat)
    requires k < |table| && 1 < |table| && i < |w.ends|
  {
    SumTo(table, 1) != w.ends[i] && forall j | 1 <= j <= k :: SumTo(table, j) != w.ends[i]
  }

  lemma ClearedAt(table: seq<Single>, w: Wave, j: nat, i: nat)
    requires w.Valid() && Plays(table, w) && j < |table| - 1 && i < |w.pins|
    ensures w.pins[i] !in table[j].gpioSet
    ensures w.pins[i] in table[j].gpioClear <==> SumTo(table, j + 1) == w.ends[i]
  {
    EndsOnlyOnce(w, i, SumTo(table, j + 1));
  }

  lemma {:induction false} FirstHighMeaning(table: seq<Single>, w: Wave, before: set<nat>, k: nat, i: nat)
    requires w.Valid() && Plays(table, w) && 1 < |table| && k < |table| && i < |w.pins|
    ensures w.pins[i] in FirstHigh(table, before, k) <==> w.pins[i] in before && NotEnded(table, w, i, k)
  {
    if k == 0 {
      ClearedAt(table, w, 0, i);
    } else {
      ClearedAt(table, w, k - 1, i);
      FirstHighMeaning(table, w, before, k - 1, i);
    }
  }

  /** Interval k of the first period: a channel that was high stays so until its time ends, but one that ends with the
      first interval is low from the start on, and a channel that was low stays low. */
  lemma FirstPeriod(p: Player, w: Wave, k: nat, i: nat)
    requires CanStart(p, w) && p.current == 0 && 1 < |Compile(w)| && k < |Compile(w)| && i < |w.pins|
    ensures Started(p, Compile(w)).Valid()
    ensures var table, q := Compile(w), Interrupts(Started(p, Compile(w)), k);
            && q.current == k && q.load == table[k].hTime && !q.timerDown
            && q.playing == q.toggle == 1 - p.toggle && q.tables[q.toggle] == table
            && (q.AtBoundary() <==> k == |table| - 1)
            && (w.pins[i] in q.high <==> w.pins[i] in p.high && NotEnded(table, w, i, k))
  {
    CompilePlays(w);
    FirstInterrupts(p, Compile(w), k);
    FirstHighMeaning(Compile(w), w, p.high, k, i);
  }

  /** At tick t, in interval k, of the first period the channel has its level of the waveform. */
  ghost predicate FirstLevelIsRight(p: Player, w: Wave, k: int, t: int, i: nat)
    requires CanStart(p, w) && i < |w.pins|
  {
    && 0 <= k && Compile(w) != [] && Started(p, Compile(w)).Valid()
    && (w.pins[i] in Interrupts(Started(p, Compile(w)), k).high <==> t < w.ends[i])
  }

  /** So in the first period, unlike in all later ones, a channel has its waveform in some cases only: exactly if it
      was high before the start and its high time is longer than the first interval, or it was low and has none. */
  lemma FirstPeriodIsRightIff(p: Player, w: Wave, i: nat)
    requires CanStart(p, w) && p.current == 0 && 1 < |Compile(w)| && i < |w.pins|
    ensures (forall k, t | IsIntervalOf(Compile(w), k, t) :: FirstLevelIsRight(p, w, k, t, i))
       <==> if w.pins[i] in p.high then w.ends[i] > Compile(w)[0].hTime else w.ends[i] == 0
  {
    var table := Compile(w);
    CompilePlays(w);
    assert SumTo(table, 0) == 0 && SumTo(table, 1) == table[0].hTime;
    if if w.pins[i] in p.high then w.ends[i] > table[0].hTime else w.ends[i] == 0 {
      forall k, t | IsIntervalOf(table, k, t) ensures FirstLevelIsRight(p, w, k, t, i) {
        FirstPeriod(p, w, k, i);
        NotAfter(table, 0, k);
        NoEndYet(table, w.ends[i], k, t);
      }
    } else {
      FirstPeriod(p, w, 0, i);
      assert IsIntervalOf(table, 0, 0);
      if w.pins[i] in p.high && w.ends[i] != table[0].hTime && w.ends[i] != 0 {
        NoFirstEnd(table, w, i);
      }
      assert !FirstLevelIsRight(p, w, 0, 0, i);
    }
  }

  /** No high time ends inside the first interval. */
  lemma NoFirstEnd(table: seq<Single>, w: Wave, i: nat)
    requires w.Valid() && Plays(table, w) && i < |w.pins| && 1 < |table|
    ensures w.ends[i] <= 0 || table[0].hTime <= w.ends[i]
  {
    assert SumTo(table, 0) == 0 && SumTo(table, 1) == table[0].hTime;
    if 0 < w.ends[i] < table[0].hTime {
      SumToIncreases(table, 1, |table|);
      assert IntervalEnds(table, w.ends[i]);
      var k :| 1 <= k < |table| && SumTo(table, k) == w.ends[i];
      NotAfter(table, 1, k);
      assert false;
    }
  }
}
