/** What the tick queue of extmod/modutimeq.c is for: over whole runs it behaves like a list of callbacks
    with unwrapped deadlines from which the earliest is taken, although it stores and compares wrapped ticks. */
module UTimeqRuns {
  import opened BinaryHeap
  import opened Ticks
  import opened UTimeq
  import opened Wrappers

  // ---------- the reference queue ----------

  /** A callback with its true deadline. `id` counts pushes. */
  datatype Pending = Pending(due: int, id: int, callback: Object, args: Object)

  /** Position k holds the earliest deadline, and is the first to hold it: ties go in push order. */
  ghost predicate IsEarliest(ps: seq<Pending>, k: nat) {
    && k < |ps|
    && (forall j | 0 <= j < |ps| :: ps[k].due <= ps[j].due)
    && (forall j | 0 <= j < k :: ps[k].due < ps[j].due)
  }

  function Earliest(ps: seq<Pending>): (k: nat)
    requires ps != []
    ensures IsEarliest(ps, k)
    ensures k < |ps| && (forall j | 0 <= j < |ps| :: ps[k].due <= ps[j].due) && (forall j | 0 <= j < k :: ps[k].due < ps[j].due)
  {
    if |ps| == 1 then 0
    else
      var k := Earliest(ps[1..]);
      assert ps[1..][k] == ps[1 + k];
      assert forall j | 0 < j < |ps| :: ps[j] == ps[1..][j - 1];
      if ps[1 + k].due < ps[0].due then 1 + k else 0
  }

  function Remove(ps: seq<Pending>, k: nat): (r: seq<Pending>)
    requires k < |ps|
    ensures |r| == |ps| - 1
  {
    ps[..k] + ps[k + 1..]
  }

  datatype Op =
    | Push(due: int, callback: Object, args: Object)
    | Pop
    | Peek
    | PushElsewhere  // some other queue takes an id

  datatype Output =
    | Pushed(pushed: Result<(), Exception>)
    | Popped(popped: Result<(int, Object, Object), Exception>)
    | Peeked(peeked: Result<int, Exception>)
    | Nothing

  datatype Reference = Reference(pending: seq<Pending>, next: int)

  function RefStep(alloc: nat, q: Reference, op: Op): (Reference, Output) {
    match op
    case Push(due, callback, args) =>
      if |q.pending| == alloc then
        (q, Pushed(Err(IndexError)))
      else
        (Reference(q.pending + [Pending(due, q.next, callback, args)], q.next + 1), Pushed(Ok(())))
    case Pop =>
      if q.pending == [] then
        (q, Popped(Err(IndexError)))
      else
        var k := Earliest(q.pending);
        var p := q.pending[k];
        (q.(pending := Remove(q.pending, k)), Popped(Ok((p.due, p.callback, p.args))))
    case Peek =>
      (q, Peeked(if q.pending == [] then Err(IndexError) else Ok(q.pending[Earliest(q.pending)].due)))
    case PushElsewhere =>
      (q.(next := q.next + 1), Nothing)
  }

  function RefRun(alloc: nat, q: Reference, ops: seq<Op>): (Reference, seq<Output>)
    decreases |ops|
  {
    if ops == [] then (q, [])
    else
      var (q1, out) := RefStep(alloc, q, ops[0]);
      var (q2, outs) := RefRun(alloc, q1, ops[1..]);
      (q2, [out] + outs)
  }

  // ---------- the tick queue ----------

  datatype TickQueue = TickQueue(items: seq<QEntry>, next: int)

  /** One call, with the ticks of the deadline as ticks_ms would deliver them. */
  function TickStep(c: Clock, alloc: nat, q: TickQueue, op: Op): (TickQueue, Output) {
    match op
    case Push(due, callback, args) =>
      var (items, next, r) := PushSpec(c, alloc, q.items, q.next, due % c.Period(), callback, args);
      (TickQueue(items, next), Pushed(r))
    case Pop =>
      var (items, r) := PopSpec(c, q.items, true);
      (q.(items := items), Popped(r))
    case Peek =>
      (q, Peeked(PeekSpec(q.items)))
    case PushElsewhere =>
      (q.(next := (q.next + 1) % c.word), Nothing)
  }

  function TickRun(c: Clock, alloc: nat, q: TickQueue, ops: seq<Op>): (TickQueue, seq<Output>)
    decreases |ops|
  {
    if ops == [] then (q, [])
    else
      var (q1, out) := TickStep(c, alloc, q, ops[0]);
      var (q2, outs) := TickRun(c, alloc, q1, ops[1..]);
      (q2, [out] + outs)
  }

  /** A failing call changes nothing: the queue is full or empty, or the caller's list cannot take the entry. */
  lemma FailuresKeepQueue(c: Clock, items: seq<QEntry>, next: int, ticks: int, callback: Object, args: Object)
    ensures PushSpec(c, |items|, items, next, ticks, callback, args) == (items, next, Err(IndexError))
    ensures forall room :: PopSpec(c, [], room) == ([], Err(IndexError))
    ensures items != [] ==> PopSpec(c, items, false) == (items, Err(TypeError))
    ensures PeekSpec([]) == Err(IndexError)
  {
  }

  // ---------- the relation between the two ----------

  function Entry(c: Clock, p: Pending): QEntry {
    QEntry(p.due % c.Period(), p.id, p.callback, p.args)
  }

  function Entries(c: Clock, ps: seq<Pending>): (es: seq<QEntry>)
    ensures |es| == |ps|
  {
    seq(|ps|, i requires 0 <= i < |ps| => Entry(c, ps[i]))
  }

  /** What the caller sees of a reference output when times are ticks. */
  function InTicks(c: Clock, out: Output): Output {
    match out
    case Popped(Ok((due, callback, args))) => Popped(Ok((due % c.Period(), callback, args)))
    case Peeked(Ok(due)) => Peeked(Ok(due % c.Period()))
    case _ => out
  }

  ghost predicate IdsOrdered(q: Reference) {
    && (forall i, j | 0 <= i < j < |q.pending| :: q.pending[i].id < q.pending[j].id)
    && (forall i | 0 <= i < |q.pending| :: 0 <= q.pending[i].id < q.next)
  }

  /** The live deadlines span less than half a period. */
  ghost predicate Spanned(c: Clock, ps: seq<Pending>) {
    forall i, j | 0 <= i < |ps| && 0 <= j < |ps| :: ps[i].due - ps[j].due < c.half
  }

  ghost predicate Refines(c: Clock, q: TickQueue, ref: Reference) {
    && q.next == ref.next >= 0
    && IdsOrdered(ref)
    && IsHeap(LessThan(c), q.items)
    && multiset(q.items) == multiset(Entries(c, ref.pending))
  }

  /** In the run of the reference queue, the live deadlines are spanned after every call. */
  ghost predicate SpannedRun(c: Clock, alloc: nat, ref: Reference, ops: seq<Op>)
    decreases |ops|
  {
    && Spanned(c, ref.pending)
    && (ops != [] ==> SpannedRun(c, alloc, RefStep(alloc, ref, ops[0]).0, ops[1..]))
  }

  /** That is: after any number of calls, no two of them are half a period or more apart. */
  lemma {:induction false} SpannedRunIff(c: Clock, alloc: nat, ref: Reference, ops: seq<Op>)
    ensures SpannedRun(c, alloc, ref, ops) <==> forall n | 0 <= n <= |ops| :: SpannedAfter(c, alloc, ref, ops[..n])
    decreases |ops|
  {
    assert ops[..0] == [];
    if ops != [] {
      var next := RefStep(alloc, ref, ops[0]).0;
      SpannedRunIff(c, alloc, next, ops[1..]);
      forall n: nat | 1 <= n <= |ops|
        ensures SpannedAfter(c, alloc, ref, ops[..n]) <==> SpannedAfter(c, alloc, next, ops[1..][..n - 1])
      {
        assert ops[..n][1..] == ops[1..][..n - 1];
      }
      if forall n | 0 <= n <= |ops| :: SpannedAfter(c, alloc, ref, ops[..n]) {
        forall n | 0 <= n <= |ops[1..]| ensures SpannedAfter(c, alloc, next, ops[1..][..n]) {
          assert SpannedAfter(c, alloc, ref, ops[..n + 1]);
        }
      }
    }
  }

  ghost predicate SpannedAfter(c: Clock, alloc: nat, ref: Reference, ops: seq<Op>) {
    var ps := RefRun(alloc, ref, ops).0.pending;
    forall a, b | a in ps && b in ps :: a.due - b.due < c.half
  }

  // ---------- the order ----------

  ghost predicate Before(a: Pending, b: Pending) {
    a.due < b.due || (a.due == b.due && a.id < b.id)
  }

  /** Between deadlines less than half a period apart, ticks_diff recovers the true difference. */
  lemma TicksOfDeadlines(c: Clock, a: int, b: int)
    requires -c.half < a - b < c.half
    ensures TicksDiff(c, b % c.Period(), a % c.Period()) == b - a
  {
    RemainderGap(a, b, c.Period());
    var m :| b % c.Period() - a % c.Period() == b - a + m * c.Period();
    var x := b - a + c.half;
    ModMod(x + m * c.Period(), c);
    ModMultiple(x, m, c.Period());
    ModUnique(x, 0, x, c.Period());
  }

  lemma RemainderGap(a: int, b: int, p: int)
    requires p > 0
    ensures exists m :: b % p - a % p == b - a + m * p
  {
    var m := a / p - b / p;
    assert m * p == (a / p) * p - (b / p) * p;
    assert b % p - a % p == b - a + m * p;
  }

  /** Between deadlines less than half a period apart, comparing ticks is comparing deadlines. */
  lemma LessThanIsBefore(c: Clock, a: Pending, b: Pending)
    requires -c.half < a.due - b.due < c.half
    ensures TimeLessThan(c, Entry(c, a), Entry(c, b)) <==> Before(a, b)
  {
    TicksOfDeadlines(c, a.due, b.due);
    DiffInPeriod(c, 0);
    var ta, tb := a.due % c.Period(), b.due % c.Period();
    if ta == tb {
      WordRange(c, 0);
      assert a.due == b.due;
    } else {
      LessThanIsPositiveDiff(c, Entry(c, a), Entry(c, b));
    }
  }

  /** The comparison tells which of two deadlines is the earlier one. */
  ghost predicate Agrees(c: Clock, a: Pending, b: Pending) {
    && (TimeLessThan(c, Entry(c, a), Entry(c, b)) <==> Before(a, b))
    && (TimeLessThan(c, Entry(c, b), Entry(c, a)) <==> Before(b, a))
  }

  /** For any two deadlines: it does so exactly if they are equal, or differ by whole periods in the order of their
      ids, or if the difference left after whole periods is less than half a period. */
  lemma AgreesIff(c: Clock, a: Pending, b: Pending)
    ensures var x, p := b.due - a.due, c.Period();
            Agrees(c, a, b) <==>
              if x == 0 then true
              else if x % p == 0 then if x > 0 then a.id < b.id else b.id < a.id
              else if x > 0 then x % p < c.half
              else -x % p < c.half
  {
    var x, p := b.due - a.due, c.Period();
    var ta, tb := a.due % p, b.due % p;
    RemainderGap(a.due, b.due, p);
    var m :| tb - ta == x + m * p;
    ByTicks(c, a, b);
    ByTicks(c, b, a);
    if ta == tb {
      assert (-m) * p == -(m * p);
      ModUnique(x, -m, 0, p);
    } else {
      GapOfTicks(x, m, ta, tb, p);
    }
  }

  lemma ByTicks(c: Clock, a: Pending, b: Pending)
    ensures var ta, tb := a.due % c.Period(), b.due % c.Period();
            TimeLessThan(c, Entry(c, a), Entry(c, b)) <==>
              if ta == tb then a.id < b.id else if tb > ta then tb - ta < c.half else tb - ta + c.Period() < c.half
  {
    LessThanByGap(c, Entry(c, a), Entry(c, b));
  }

  /** What the gap between two tick values tells about the difference of the deadlines, in both directions. */
  lemma GapOfTicks(x: int, m: int, ta: int, tb: int, p: int)
    requires p > 0 && tb - ta == x + m * p && 0 <= ta < p && 0 <= tb < p && ta != tb
    ensures x % p == (if tb > ta then tb - ta else tb - ta + p) && -x % p == p - x % p && x != 0
  {
    if tb > ta {
      ModUnique(x, -m, tb - ta, p);
      ModUnique(-x, m - 1, p - (tb - ta), p);
      assert (m - 1) * p == m * p - p;
    } else {
      assert (-m - 1) * p == -(m * p) - p;
      ModUnique(x, -m - 1, tb - ta + p, p);
      ModUnique(-x, m, ta - tb, p);
    }
    if x == 0 {
      SmallMultiple(m, p);
    }
  }

  /** So a queue of deadlines within one period is ordered by them exactly if they span less than half of it. */
  lemma AgreesOnAllIff(c: Clock, ps: seq<Pending>)
    requires forall i, j | 0 <= i < |ps| && 0 <= j < |ps| :: ps[i].due - ps[j].due < c.Period()
    ensures (forall i, j | 0 <= i < |ps| && 0 <= j < |ps| :: Agrees(c, ps[i], ps[j])) <==> Spanned(c, ps)
  {
    forall i, j | 0 <= i < |ps| && 0 <= j < |ps|
      ensures Agrees(c, ps[i], ps[j]) <==> -c.half < ps[i].due - ps[j].due < c.half
    {
      AgreesWithinPeriod(c, ps[i], ps[j]);
    }
  }

  lemma AgreesWithinPeriod(c: Clock, a: Pending, b: Pending)
    requires -c.Period() < a.due - b.due < c.Period()
    ensures Agrees(c, a, b) <==> -c.half < a.due - b.due < c.half
  {
    var x, p := b.due - a.due, c.Period();
    AgreesIff(c, a, b);
    if x > 0 {
      ModUnique(x, 0, x, p);
    } else {
      ModUnique(-x, 0, -x, p);
      if x < 0 {
        ModUnique(x, -1, x + p, p);
      }
    }
  }

  lemma LessThanOrdersEntries(c: Clock, ps: seq<Pending>)
    requires Spanned(c, ps)
    ensures StrictWeakOrder(LessThan(c), set e | e in Entries(c, ps))
  {
    var es := Entries(c, ps);
    forall i, j | 0 <= i < |ps| && 0 <= j < |ps|
      ensures LessThan(c)(es[i], es[j]) <==> Before(ps[i], ps[j])
    {
      LessThanIsBefore(c, ps[i], ps[j]);
    }
  }

  lemma WithinEntries(c: Clock, items: seq<QEntry>, ps: seq<Pending>)
    requires multiset(items) == multiset(Entries(c, ps))
    ensures Within(items, set e | e in Entries(c, ps))
    ensures |items| == |ps|
  {
    forall i | 0 <= i < |items| ensures items[i] in Entries(c, ps) {
      assert items[i] in multiset(items);
    }
    assert |multiset(items)| == |multiset(Entries(c, ps))|;
  }

  /** The root of the tick heap is the entry of the earliest deadline. */
  lemma RootIsEarliest(c: Clock, q: TickQueue, ref: Reference)
    requires Refines(c, q, ref) && Spanned(c, ref.pending) && ref.pending != []
    ensures q.items != [] && q.items[0] == Entry(c, ref.pending[Earliest(ref.pending)])
  {
    var ps := ref.pending;
    var es := Entries(c, ps);
    var first := Earliest(ps);
    WithinEntries(c, q.items, ps);
    LessThanOrdersEntries(c, ps);
    var k :| 0 <= k < |ps| && es[k] == q.items[0];
    NoneBeforeRoot(c, q.items, ps, first);
    LessThanIsBefore(c, ps[first], ps[k]);
  }

  lemma NoneBeforeRoot(c: Clock, items: seq<QEntry>, ps: seq<Pending>, first: nat)
    requires multiset(items) == multiset(Entries(c, ps)) && IsHeap(LessThan(c), items)
    requires StrictWeakOrder(LessThan(c), set e | e in Entries(c, ps)) && first < |ps| && items != []
    ensures !TimeLessThan(c, Entries(c, ps)[first], items[0])
  {
    var es := Entries(c, ps);
    WithinEntries(c, items, ps);
    assert es[first] in multiset(items);
    var i: nat :| i < |items| && items[i] == es[first];
    RootIsLeast(LessThan(c), (set e | e in es), items, i);
  }

  lemma RemoveEntry(c: Clock, ps: seq<Pending>, k: nat)
    requires k < |ps|
    ensures multiset(Entries(c, ps)) == multiset{Entry(c, ps[k])} + multiset(Entries(c, Remove(ps, k)))
  {
    var es := Entries(c, ps);
    assert es == es[..k] + ([es[k]] + es[k + 1..]);
    assert Entries(c, Remove(ps, k)) == es[..k] + es[k + 1..];
  }

  lemma AppendEntry(c: Clock, ps: seq<Pending>, p: Pending)
    ensures Entries(c, ps + [p]) == Entries(c, ps) + [Entry(c, p)]
  {
  }

  // ---------- one call ----------

  lemma PushRefines(c: Clock, alloc: nat, q: TickQueue, ref: Reference, due: int, callback: Object, args: Object)
    requires Refines(c, q, ref) && q.next + 1 < c.word
    requires |ref.pending| != alloc && |q.items| == |ref.pending|
    requires Spanned(c, RefStep(alloc, ref, Push(due, callback, args)).0.pending)
    ensures Refines(c, TickStep(c, alloc, q, Push(due, callback, args)).0,
                    RefStep(alloc, ref, Push(due, callback, args)).0)
  {
    var p := Pending(due, ref.next, callback, args);
    WordRange(c, due % c.Period());
    WordRange(c, q.next + 1);
    AppendEntry(c, ref.pending, p);
    PushHeap(c, q, ref, p);
  }

  lemma PushHeap(c: Clock, q: TickQueue, ref: Reference, p: Pending)
    requires Refines(c, q, ref) && Spanned(c, ref.pending + [p])
    ensures var items := BinaryHeap.Push(LessThan(c), q.items, Entry(c, p));
            IsHeap(LessThan(c), items) && multiset(items) == multiset(Entries(c, ref.pending + [p]))
  {
    var ps := ref.pending + [p];
    var u := set e | e in Entries(c, ps);
    AppendEntry(c, ref.pending, p);
    LessThanOrdersEntries(c, ps);
    WithinEntries(c, q.items, ref.pending);
    assert Entries(c, ps)[|ref.pending|] == Entry(c, p);
    PushKeepsHeap(LessThan(c), u, q.items, Entry(c, p));
  }

  lemma PopRefines(c: Clock, alloc: nat, q: TickQueue, ref: Reference)
    requires Refines(c, q, ref) && Spanned(c, ref.pending) && ref.pending != []
    ensures Refines(c, TickStep(c, alloc, q, Pop).0, RefStep(alloc, ref, Pop).0)
    ensures TickStep(c, alloc, q, Pop).1 == InTicks(c, RefStep(alloc, ref, Pop).1)
  {
    var k := Earliest(ref.pending);
    var rest := Remove(ref.pending, k);
    RootIsEarliest(c, q, ref);
    RemoveEntry(c, ref.pending, k);
    LessThanOrdersEntries(c, ref.pending);
    WithinEntries(c, q.items, ref.pending);
    PopKeepsHeap(LessThan(c), (set e | e in Entries(c, ref.pending)), q.items);
    CancelOne(q.items[0], multiset(PopRest(LessThan(c), q.items)), multiset(Entries(c, rest)));
    RemoveKeepsIds(ref, k);
  }

  lemma CancelOne<T>(x: T, a: multiset<T>, b: multiset<T>)
    requires multiset{x} + a == multiset{x} + b
    ensures a == b
  {
    assert a == (multiset{x} + a) - multiset{x};
  }

  lemma RemoveKeepsIds(ref: Reference, k: nat)
    requires IdsOrdered(ref) && k < |ref.pending|
    ensures IdsOrdered(ref.(pending := Remove(ref.pending, k)))
  {
    var ps, rest := ref.pending, Remove(ref.pending, k);
    assert forall i | 0 <= i < |rest| :: rest[i] == ps[if i < k then i else i + 1];
  }

  lemma StepRefines(c: Clock, alloc: nat, q: TickQueue, ref: Reference, op: Op)
    requires Refines(c, q, ref) && q.next + 1 < c.word
    requires Spanned(c, ref.pending) && Spanned(c, RefStep(alloc, ref, op).0.pending)
    ensures Refines(c, TickStep(c, alloc, q, op).0, RefStep(alloc, ref, op).0)
    ensures TickStep(c, alloc, q, op).1 == InTicks(c, RefStep(alloc, ref, op).1)
  {
    WithinEntries(c, q.items, ref.pending);
    match op
    case Push(due, callback, args) =>
      if |ref.pending| == alloc {
      } else {
        PushRefines(c, alloc, q, ref, due, callback, args);
      }
    case Pop =>
      if ref.pending == [] {
      } else {
        PopRefines(c, alloc, q, ref);
      }
    case Peek =>
      if ref.pending == [] {
      } else {
        RootIsEarliest(c, q, ref);
      }
    case PushElsewhere =>
      WordRange(c, q.next + 1);
  }

  /** Every run: as long as the live deadlines span less than half a period and the ids have not wrapped,
      the tick queue stays a heap with exactly the entries pushed and not popped, and every call answers
      as the reference queue does, with deadlines read modulo the period. */
  lemma {:induction false} RunRefines(c: Clock, alloc: nat, q: TickQueue, ref: Reference, ops: seq<Op>)
    requires Refines(c, q, ref) && q.next + |ops| < c.word
    requires SpannedRun(c, alloc, ref, ops)
    ensures Refines(c, TickRun(c, alloc, q, ops).0, RefRun(alloc, ref, ops).0)
    ensures var (_, got) := TickRun(c, alloc, q, ops);
            var (_, want) := RefRun(alloc, ref, ops);
            |got| == |want| && forall i | 0 <= i < |got| :: got[i] == InTicks(c, want[i])
    decreases |ops|
  {
    if ops == [] {
    } else {
      var (q1, out) := TickStep(c, alloc, q, ops[0]);
      var (ref1, refOut) := RefStep(alloc, ref, ops[0]);
      StepRefines(c, alloc, q, ref, ops[0]);
      NextGrowsByAtMostOne(c, alloc, ref, ops[0]);
      RunRefines(c, alloc, q1, ref1, ops[1..]);
    }
  }

  lemma NextGrowsByAtMostOne(c: Clock, alloc: nat, ref: Reference, op: Op)
    ensures RefStep(alloc, ref, op).0.next <= ref.next + 1
  {
  }

  /** In particular every run that starts with an empty queue. */
  lemma RunFromEmpty(c: Clock, alloc: nat, ops: seq<Op>)
    requires |ops| < c.word && SpannedRun(c, alloc, Reference([], 0), ops)
    ensures var (end, got) := TickRun(c, alloc, TickQueue([], 0), ops);
            var (refEnd, want) := RefRun(alloc, Reference([], 0), ops);
            && multiset(end.items) == multiset(Entries(c, refEnd.pending))
            && IsHeap(LessThan(c), end.items)
            && |got| == |want|
            && (forall i | 0 <= i < |got| :: got[i] == InTicks(c, want[i]))
  {
    assert Entries(c, []) == [];
    RunRefines(c, alloc, TickQueue([], 0), Reference([], 0), ops);
  }
}
