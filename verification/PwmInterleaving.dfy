/** esp8266/esppwm.c: the timer interrupt runs between the steps of pwm_start, and the two share the tables
    without a lock. A system state is the player that the interrupt sees, plus where pwm_start is. */
module PwmInterleaving {
  import opened PwmTable
  import opened EspPwm

  /** Where pwm_start is: not running; compiling into the table `local`; past the test of pwm_timer_down and
      before the change of pwm_toggle. */
  datatype Task = Idle | Filling(local: nat) | Published(local: nat)

  /** `latest` and `completed` record history: the table of the last start that completed, and whether one has
      completed since the last period boundary. */
  datatype System = System(p: Player, task: Task, latest: seq<Single>, completed: bool)

  datatype Step =
    | Begin
    | Write(content: seq<Single>)  // any store of steps 1 to 6: the local table becomes `content`
    | Publish                      // the table is compiled; start the timer if it is down
    | Flip                         // pwm_toggle changes, pwm_start returns
    | Tick                         // the timer interrupt

  predicate WellFormed(s: System) {
    && |s.p.tables| == 2 && s.p.toggle < 2 && s.p.playing < 2
    && (s.task.Filling? || s.task.Published? ==> s.task.local < 2)
    && s.p.tables[s.p.toggle] != []
    && (!s.p.timerDown ==> s.p.tables[s.p.playing] != [])
  }

  /** A step that can happen next: pwm_start proceeds in order, the timer fires unless it is down. */
  predicate Enabled(s: System, step: Step)
    requires WellFormed(s)
  {
    match step
    case Begin => s.task.Idle?
    case Write(_) => s.task.Filling?
    case Publish => s.task.Filling? && s.p.tables[s.task.local] != []
    case Flip => s.task.Published?
    case Tick => !s.p.timerDown
  }

  function Next(s: System, step: Step): System
    requires WellFormed(s) && Enabled(s, step)
  {
    match step
    case Begin => s.(task := Filling(1 - s.p.toggle))
    case Write(content) => s.(p := s.p.(tables := s.p.tables[s.task.local := content]))
    case Publish =>
      var table := s.p.tables[s.task.local];
      s.(p := StartIfDown(s.p, s.task.local, table), task := Published(s.task.local))
    case Flip =>
      s.(p := s.p.(toggle := 1 - s.p.toggle), task := Idle, latest := s.p.tables[s.task.local], completed := true)
    case Tick =>
      s.(p := Interrupt(s.p), completed := s.completed && !s.p.AtBoundary())
  }

  function StartIfDown(p: Player, local: nat, table: seq<Single>): Player
    requires table != []
  {
    if p.timerDown then
      var r := p.(playing := local, high := Output(p.high, table[0]));
      if |table| != 1 then r.(timerDown := false, load := table[0].hTime) else r
    else
      p
  }

  /** Nothing in between, these steps are the pwm_start of the driver. */
  lemma StepsAreStart(s: System, table: seq<Single>)
    requires WellFormed(s) && s.task.Idle? && table != []
    requires s.p.timerDown || s.p.playing == s.p.toggle
    ensures var s1 := Next(s, Begin);
            WellFormed(s1) && Enabled(s1, Write(table)) &&
            var s2 := Next(s1, Write(table));
            WellFormed(s2) && Enabled(s2, Publish) &&
            var s3 := Next(s2, Publish);
            WellFormed(s3) && Enabled(s3, Flip) &&
            Next(s3, Flip).p == Started(s.p, table)
  {
  }

  // ---------- the invariant ----------

  /** The guard under which a start may begin: the last completed start has reached the interrupt. */
  predicate MayBegin(s: System) {
    s.p.timerDown || s.p.toggle == s.p.playing
  }

  ghost predicate Inv(s: System) {
    && WellFormed(s)
    && s.p.tables[s.p.toggle] == s.latest
    && (s.task.Filling? ==> s.task.local == 1 - s.p.toggle && MayBegin(s))
    && (s.task.Published? ==> s.task.local == 1 - s.p.toggle && s.p.tables[s.task.local] != [])
    && (s.task.Idle? && !s.completed ==> MayBegin(s))
  }

  /** The table that the interrupt is replaying is not the one that this step stores into. */
  predicate LeavesPlayedTable(s: System, step: Step) {
    step.Write? && s.task.Filling? && !s.p.timerDown ==> s.task.local != s.p.playing
  }

  /** At a boundary the interrupt switches to the table of the last completed start. */
  predicate PicksLatest(s: System, step: Step)
    requires WellFormed(s) && Enabled(s, step)
  {
    step.Tick? && s.p.AtBoundary() ==>
      var q := Next(s, step).p;
      && q.playing < |q.tables| && q.tables[q.playing] == s.latest && q.current == 0
      && s.latest != [] && q.high == Output(s.p.high, s.latest[|s.latest| - 1])
  }

  ghost predicate SafeRun(s: System, steps: seq<Step>)
    decreases |steps|
  {
    steps != [] ==>
      && WellFormed(s)
      && (Enabled(s, steps[0]) ==>
           && LeavesPlayedTable(s, steps[0])
           && PicksLatest(s, steps[0])
           && SafeRun(Next(s, steps[0]), steps[1..]))
  }

  /** Starts begin only under the guard. A step that is not enabled ends the run. */
  ghost predicate GuardedRun(s: System, steps: seq<Step>)
    decreases |steps|
  {
    steps != [] && WellFormed(s) && Enabled(s, steps[0]) ==>
      (steps[0].Begin? ==> MayBegin(s)) && GuardedRun(Next(s, steps[0]), steps[1..])
  }

  lemma InvStep(s: System, step: Step)
    requires Inv(s) && Enabled(s, step) && (step.Begin? ==> MayBegin(s))
    ensures Inv(Next(s, step)) && LeavesPlayedTable(s, step) && PicksLatest(s, step)
  {
  }

  /** Every interleaving of the interrupt with guarded starts: no table is written while it is replayed, and
      each boundary switches to the last complete table. */
  lemma {:induction false} GuardedRunsAreSafe(s: System, steps: seq<Step>)
    requires Inv(s) && GuardedRun(s, steps)
    ensures SafeRun(s, steps)
    decreases |steps|
  {
    if steps == [] || !Enabled(s, steps[0]) {
    } else {
      InvStep(s, steps[0]);
      GuardedRunsAreSafe(Next(s, steps[0]), steps[1..]);
    }
  }

  /** At most one start completes, and no further one begins, between period boundaries. */
  ghost predicate OneStartPerPeriod(s: System, steps: seq<Step>)
    decreases |steps|
  {
    steps != [] && WellFormed(s) && Enabled(s, steps[0]) ==>
      (steps[0].Begin? ==> !s.completed) && OneStartPerPeriod(Next(s, steps[0]), steps[1..])
  }

  /** That discipline implies the guard, so it is enough. */
  lemma {:induction false} OneStartPerPeriodIsSafe(s: System, steps: seq<Step>)
    requires Inv(s) && OneStartPerPeriod(s, steps)
    ensures SafeRun(s, steps)
    decreases |steps|
  {
    if steps == [] || !Enabled(s, steps[0]) {
    } else {
      InvStep(s, steps[0]);
      OneStartPerPeriodIsSafe(Next(s, steps[0]), steps[1..]);
    }
  }

  /** No further start begins. */
  ghost predicate NoBegin(steps: seq<Step>) {
    forall i | 0 <= i < |steps| :: !steps[i].Begin?
  }

  lemma {:induction false} NoBeginIsGuarded(s: System, steps: seq<Step>)
    requires NoBegin(steps)
    ensures GuardedRun(s, steps)
    decreases |steps|
  {
    if steps != [] && WellFormed(s) && Enabled(s, steps[0]) {
      NoBeginIsGuarded(Next(s, steps[0]), steps[1..]);
    }
  }

  /** The guard is exact: a start that begins in this state leaves the table being replayed alone, however the
      interrupt and its own steps follow each other, if and only if the guard holds. */
  lemma GuardIsExact(s: System)
    requires Inv(s) && s.task.Idle?
    ensures (forall steps | NoBegin(steps) :: SafeRun(Next(s, Begin), steps)) <==> MayBegin(s)
  {
    var s1 := Next(s, Begin);
    if MayBegin(s) {
      InvStep(s, Begin);
      forall steps | NoBegin(steps) ensures SafeRun(s1, steps) {
        NoBeginIsGuarded(s1, steps);
        GuardedRunsAreSafe(s1, steps);
      }
    } else {
      assert NoBegin([Write([])]) && !SafeRun(s1, [Write([])]);
    }
  }

  /** Two starts in one period: the second one overwrites the table being replayed. */
  lemma SecondStartOverwrites(s: System, table: seq<Single>, content: seq<Single>)
    requires Inv(s) && s.task.Idle? && !s.p.timerDown && s.p.toggle == s.p.playing
    requires table != [] && content != s.p.tables[s.p.playing]
    ensures !SafeRun(s, [Begin, Write(table), Publish, Flip, Begin, Write(content)])
  {
    var s1 := Next(s, Begin);
    var s2 := Next(s1, Write(table));
    var s3 := Next(s2, Publish);
    var s4 := Next(s3, Flip);
    var s5 := Next(s4, Begin);
    assert !SafeRun(s5, [Write(content)]);
    assert !SafeRun(s4, [Begin, Write(content)]) by {
      assert [Begin, Write(content)][1..] == [Write(content)];
    }
    assert !SafeRun(s3, [Flip, Begin, Write(content)]) by {
      assert [Flip, Begin, Write(content)][1..] == [Begin, Write(content)];
    }
    assert !SafeRun(s2, [Publish, Flip, Begin, Write(content)]) by {
      assert [Publish, Flip, Begin, Write(content)][1..] == [Flip, Begin, Write(content)];
    }
    assert !SafeRun(s1, [Write(table), Publish, Flip, Begin, Write(content)]) by {
      assert [Write(table), Publish, Flip, Begin, Write(content)][1..] == [Publish, Flip, Begin, Write(content)];
    }
    assert [Begin, Write(table), Publish, Flip, Begin, Write(content)][1..]
        == [Write(table), Publish, Flip, Begin, Write(content)];
  }

  // ---------- no start is lost ----------

  /** The timer is down although the last completed start has a schedule with edges: it is never replayed. */
  predicate Lost(s: System) {
    s.task.Idle? && s.p.timerDown && |s.latest| > 1
  }

  ghost predicate NotLostInv(s: System) {
    && Inv(s)
    && !Lost(s)
    && (!s.p.timerDown && s.p.playing == s.p.toggle ==> |s.latest| > 1)
    && (s.task.Published? && s.p.timerDown ==> |s.p.tables[s.task.local]| == 1)
    && (s.task.Published? && !s.p.timerDown ==> s.p.playing == s.task.local ==> |s.p.tables[s.task.local]| > 1)
  }

  /** A boundary between the timer start (line 196) and the change of pwm_toggle (line 200). */
  predicate BoundaryInStart(s: System, step: Step)
    requires s.p.playing < |s.p.tables|
  {
    step.Tick? && s.task.Published? && s.p.playing == s.task.local && s.p.AtBoundary()
  }

  /** Such a boundary, while the schedule before was constant. */
  predicate LosingBoundary(s: System, step: Step)
    requires s.p.playing < |s.p.tables|
  {
    BoundaryInStart(s, step) && |s.latest| == 1
  }

  /** A step endangers a start exactly if it is a boundary in that gap and the schedule before was constant. */
  lemma NotLostStepIff(s: System, step: Step)
    requires NotLostInv(s) && Enabled(s, step) && (step.Begin? ==> MayBegin(s))
    ensures NotLostInv(Next(s, step)) <==> !LosingBoundary(s, step)
  {
  }

  /** Then the timer is down, so pwm_start can only return, and the start is lost. */
  lemma BoundaryInStartLoses(s: System)
    requires NotLostInv(s) && Enabled(s, Tick) && LosingBoundary(s, Tick)
    ensures var s1 := Next(s, Tick);
            && Inv(s1) && s1.task.Published?
            && (forall step | Enabled(s1, step) :: step == Flip) && Lost(Next(s1, Flip))
  {
    InvStep(s, Tick);
  }

  /** The state in which a run ends. */
  function End(s: System, steps: seq<Step>): System
    decreases |steps|
  {
    if steps != [] && WellFormed(s) && Enabled(s, steps[0]) then End(Next(s, steps[0]), steps[1..]) else s
  }

  ghost predicate NoLosingBoundary(s: System, steps: seq<Step>)
    decreases |steps|
  {
    steps != [] && WellFormed(s) && Enabled(s, steps[0]) ==>
      !LosingBoundary(s, steps[0]) && NoLosingBoundary(Next(s, steps[0]), steps[1..])
  }

  /** In no state of the run is a start lost. */
  ghost predicate NeverLost(s: System, steps: seq<Step>)
    decreases |steps|
  {
    && !Lost(s)
    && (steps != [] && WellFormed(s) && Enabled(s, steps[0]) ==> NeverLost(Next(s, steps[0]), steps[1..]))
  }

  /** Every interleaving of the interrupt with guarded starts, up to a point at which no start is under way: no
      start is lost if and only if no boundary falls into the gap of a start that follows a constant schedule. */
  lemma {:induction false} NeverLostIff(s: System, steps: seq<Step>)
    requires NotLostInv(s) && GuardedRun(s, steps) && End(s, steps).task.Idle?
    ensures NeverLost(s, steps) <==> NoLosingBoundary(s, steps)
    decreases |steps|
  {
    if steps != [] && Enabled(s, steps[0]) {
      NotLostStepIff(s, steps[0]);
      var s1 := Next(s, steps[0]);
      if LosingBoundary(s, steps[0]) {
        BoundaryInStartLoses(s);
        assert steps[1..] != [] && Enabled(s1, steps[1]) && !NeverLost(Next(s1, Flip), steps[1..][1..]);
      } else {
        NeverLostIff(s1, steps[1..]);
      }
    }
  }

  /** The state after pwm_init satisfies the invariants. */
  lemma InvAfterInit(p: Player)
    requires p.Valid() && p.timerDown && |p.tables[p.toggle]| == 1
    ensures NotLostInv(System(p, Idle, p.tables[p.toggle], false))
  {
  }

  // ---------- what is put out meanwhile ----------

  /** The interrupt has started interval k of a period that replays `table`. */
  ghost predicate InPeriod(s: System, table: seq<Single>, before: set<nat>, k: nat) {
    && s.p.playing < |s.p.tables| && s.p.tables[s.p.playing] == table && !s.p.timerDown
    && k < |table| && s.p.current == k && s.p.load == table[k].hTime && s.p.high == HighDuring(table, before, k)
  }

  lemma BoundaryBeginsPeriod(s: System)
    requires Inv(s) && Enabled(s, Tick) && s.p.AtBoundary() && |s.latest| > 1
    ensures InPeriod(Next(s, Tick), s.latest, s.p.high, 0)
  {
  }

  /** Whatever a guarded start does meanwhile, only the interrupt goes on in the period. */
  lemma StepInPeriod(s: System, table: seq<Single>, before: set<nat>, k: nat, step: Step)
    requires Inv(s) && InPeriod(s, table, before, k) && Enabled(s, step) && (step.Begin? ==> MayBegin(s))
    requires step.Tick? ==> k < |table| - 1
    ensures InPeriod(Next(s, step), table, before, if step.Tick? then k + 1 else k)
  {
    InvStep(s, step);
  }

  /** How often the interrupt comes. */
  function Ticks(steps: seq<Step>): nat {
    if steps == [] then 0 else (if steps[0].Tick? then 1 else 0) + Ticks(steps[1..])
  }

  /** All steps can happen, and none is a boundary. */
  ghost predicate WithinPeriod(s: System, steps: seq<Step>)
    decreases |steps|
  {
    steps != [] ==>
      WellFormed(s) && Enabled(s, steps[0]) && !(steps[0].Tick? && s.p.AtBoundary())
      && WithinPeriod(Next(s, steps[0]), steps[1..])
  }

  lemma {:induction false} PeriodGoesOn(s: System, table: seq<Single>, before: set<nat>, k: nat, steps: seq<Step>)
    requires Inv(s) && InPeriod(s, table, before, k) && GuardedRun(s, steps) && WithinPeriod(s, steps)
    ensures Inv(End(s, steps)) && InPeriod(End(s, steps), table, before, k + Ticks(steps))
    decreases |steps|
  {
    if steps != [] {
      InvStep(s, steps[0]);
      StepInPeriod(s, table, before, k, steps[0]);
      PeriodGoesOn(Next(s, steps[0]), table, before, if steps[0].Tick? then k + 1 else k, steps[1..]);
    }
  }

  /** In every interleaving, a period that begins with a table that plays some waveform puts this out up to its next
      boundary, whatever guarded starts do in between. */
  lemma InterleavedPeriod(s: System, steps: seq<Step>, w: Wave, t: nat, i: nat)
    requires Inv(s) && Enabled(s, Tick) && s.p.AtBoundary() && |s.latest| > 1
    requires w.Valid() && Plays(s.latest, w) && i < |w.pins|
    requires GuardedRun(Next(s, Tick), steps) && WithinPeriod(Next(s, Tick), steps)
    ensures var end, table, k := End(Next(s, Tick), steps), s.latest, Ticks(steps);
            && k < |table| && end.p.load == table[k].hTime > 0
            && end.p.playing < |end.p.tables| && (end.p.AtBoundary() <==> k == |table| - 1)
            && SumTo(table, |table|) == w.total
            && (SumTo(table, k) <= t < SumTo(table, k + 1) ==> (w.pins[i] in end.p.high <==> t < w.ends[i]))
  {
    var table, k := s.latest, Ticks(steps);
    BoundaryBeginsPeriod(s);
    InvStep(s, Tick);
    PeriodGoesOn(Next(s, Tick), table, s.p.high, 0, steps);
    if SumTo(table, k) <= t < SumTo(table, k + 1) {
      WaveIsPlayed(table, w, s.p.high, k, t, i);
    }
  }

  /** So a period that begins with the table of a configuration has its waveform. */
  lemma InterleavedWaveform(s: System, steps: seq<Step>, cfg: Config, t: nat, i: nat)
    requires Inv(s) && Enabled(s, Tick) && s.p.AtBoundary() && |s.latest| > 1
    requires cfg.Valid() && s.latest == Compile(WaveOf(cfg)) && i < |cfg.pins|
    requires GuardedRun(Next(s, Tick), steps) && WithinPeriod(Next(s, Tick), steps)
    ensures var end, table, k := End(Next(s, Tick), steps), s.latest, Ticks(steps);
            && k < |table| && SumTo(table, |table|) == 5 * cfg.period
            && (SumTo(table, k) <= t < SumTo(table, k + 1) ==>
                  (cfg.pins[i] in end.p.high <==> t < 5 * (cfg.period * cfg.duty[i] / DEPTH)))
  {
    WaveOfExact(cfg);
    CompilePlays(WaveOf(cfg));
    InterleavedPeriod(s, steps, WaveOf(cfg), t, i);
  }

  // ---------- which tables are replayed ----------

  ghost predicate IsCompiled(table: seq<Single>) {
    exists cfg: Config :: cfg.Valid() && table == Compile(WaveOf(cfg))
  }

  /** Each start publishes the table of some configuration. */
  ghost predicate PublishesCompiled(s: System, steps: seq<Step>)
    decreases |steps|
  {
    steps != [] && WellFormed(s) && Enabled(s, steps[0]) ==>
      && (steps[0].Publish? ==> IsCompiled(s.p.tables[s.task.local]))
      && PublishesCompiled(Next(s, steps[0]), steps[1..])
  }

  ghost predicate CompiledInv(s: System) {
    Inv(s) && IsCompiled(s.latest) && (s.task.Published? ==> IsCompiled(s.p.tables[s.task.local]))
  }

  /** Then each period begins with the table of some configuration. */
  lemma {:induction false} LatestIsCompiled(s: System, steps: seq<Step>)
    requires CompiledInv(s) && GuardedRun(s, steps) && PublishesCompiled(s, steps)
    ensures CompiledInv(End(s, steps))
    ensures exists cfg: Config :: cfg.Valid() && End(s, steps).latest == Compile(WaveOf(cfg))
    decreases |steps|
  {
    if steps != [] && Enabled(s, steps[0]) {
      InvStep(s, steps[0]);
      LatestIsCompiled(Next(s, steps[0]), steps[1..]);
    }
  }
}
