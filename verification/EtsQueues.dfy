/** esp8266/ets_alt_task.c on values: the ring of one task, the queue that it stands for, and the loop that
    serves the tasks one after the other. */
module EtsQueues {
  datatype Event = Event(sig: nat, par: nat)

  // ---------- one ring ----------

  /** struct task_entry: iPut is -1 when the queue is full. */
  datatype TaskEntry = TaskEntry(queue: seq<Event>, qlen: nat, iGet: int, iPut: int)

  /** A task that is not registered has a queue of length zero. In a queue of more than 127 events the indices
      never get back to the start. */
  predicate IsRing(t: TaskEntry) {
    && t.qlen <= 255 && |t.queue| == t.qlen
    && if t.qlen == 0 then t.iGet == t.iPut == 0
       else if t.qlen <= 127 then 0 <= t.iGet < t.qlen && -1 <= t.iPut < t.qlen
       else 0 <= t.iGet <= t.iPut <= 127
  }

  /** The index for posts stays an int8_t for n more of them. */
  predicate RoomFor(t: TaskEntry, n: nat) {
    t.qlen <= 127 || t.iPut + n <= 127
  }

  function Count(t: TaskEntry): (n: int)
    requires IsRing(t)
    ensures 0 <= n <= t.qlen
  {
    if t.iPut == -1 then t.qlen
    else if t.iPut >= t.iGet then t.iPut - t.iGet
    else t.iPut + t.qlen - t.iGet
  }

  /** The slot i places behind the first one. */
  function Slot(t: TaskEntry, i: nat): int {
    if t.iGet + i < t.qlen then t.iGet + i else t.iGet + i - t.qlen
  }

  function Contents(t: TaskEntry): (c: seq<Event>)
    requires IsRing(t)
    ensures |c| == Count(t)
  {
    seq(Count(t), i requires 0 <= i < Count(t) => t.queue[Slot(t, i)])
  }

  /** An int8_t. */
  function Int8(n: int): int {
    (n + 128) % 256 - 128
  }

  /** Lines 92-101: a store at i_put++, and the marks for the end and for a full queue. */
  function AfterPut(t: TaskEntry): int {
    var put := Int8(t.iPut + 1);
    var wrapped := if put == t.qlen then 0 else put;
    if wrapped == t.iGet then -1 else wrapped
  }

  function Post(t: TaskEntry, e: Event): (r: TaskEntry)
    requires IsRing(t) && t.qlen > 0
  {
    if t.iPut == -1 then t else t.(queue := t.queue[t.iPut := e], iPut := AfterPut(t))
  }

  /** Line 145: i_get after a head is taken. */
  function AfterGet(t: TaskEntry): int {
    var get := Int8(t.iGet + 1);
    if get == t.qlen then 0 else get
  }

  /** Lines 141-147: the head is taken. */
  function Take(t: TaskEntry): (r: TaskEntry)
    requires t.iGet != t.iPut
  {
    t.(iPut := if t.iPut == -1 then t.iGet else t.iPut, iGet := AfterGet(t))
  }

  /** Posting appends unless the queue is full, which the mark tells. */
  lemma PostAppends(t: TaskEntry, e: Event)
    requires IsRing(t) && t.qlen > 0 && RoomFor(t, 1)
    ensures IsRing(Post(t, e))
    ensures t.iPut == -1 <==> Count(t) == t.qlen
    ensures Contents(Post(t, e)) == if Count(t) < t.qlen then Contents(t) + [e] else Contents(t)
  {
    var r := Post(t, e);
    if t.iPut != -1 {
      assert Slot(t, Count(t)) == t.iPut;
    }
  }

  /** Taking removes the first event; there is one exactly if the indices differ. */
  lemma TakeRemoves(t: TaskEntry)
    requires IsRing(t)
    ensures t.iGet == t.iPut <==> Count(t) == 0
    ensures t.iGet != t.iPut ==>
              IsRing(Take(t)) && t.queue[t.iGet] == Contents(t)[0] && Contents(Take(t)) == Contents(t)[1..]
  {
    if t.iGet != t.iPut {
      var r := Take(t);
      assert forall i {:trigger Slot(r, i)} | 0 <= i < Count(r) :: Slot(r, i) == Slot(t, i + 1);
    }
  }

  function PostMany(t: TaskEntry, es: seq<Event>): TaskEntry
    requires IsRing(t) && t.qlen > 0 && RoomFor(t, |es|)
    decreases |es|
  {
    if es == [] then t else (PostAppends(t, es[0]); PostMany(Post(t, es[0]), es[1..]))
  }

  /** The handler gets a pointer into the queue, to a slot that is free by then. The event in it lasts while fewer
      events are posted than it takes to fill the queue; then the last one of these takes its place. */
  lemma HandledSlot(t: TaskEntry, es: seq<Event>)
    requires IsRing(t) && t.iGet != t.iPut && t.qlen > 0 && RoomFor(t, |es|)
    ensures IsRing(Take(t))
    ensures var after := PostMany(Take(t), es);
            |after.queue| == t.qlen &&
            after.queue[t.iGet] == if Count(t) - 1 + |es| < t.qlen then t.queue[t.iGet] else es[t.qlen - Count(t)]
  {
    TakeRemoves(t);
    assert Slot(Take(t), t.qlen - 1) == t.iGet;
    LastSlot(Take(t), es);
  }

  lemma {:induction false} LastSlot(t: TaskEntry, es: seq<Event>)
    requires IsRing(t) && t.qlen > 0 && Count(t) < t.qlen && RoomFor(t, |es|)
    ensures var after, last := PostMany(t, es), Slot(t, t.qlen - 1);
            |after.queue| == t.qlen &&
            after.queue[last] == if Count(t) + |es| < t.qlen then t.queue[last] else es[t.qlen - 1 - Count(t)]
    decreases |es|
  {
    if es != [] {
      PostAndLastSlot(t, es[0]);
      var t' := Post(t, es[0]);
      if Count(t') < t.qlen {
        LastSlot(t', es[1..]);
      } else {
        FullStays(t', es[1..]);
      }
    }
  }

  lemma PostAndLastSlot(t: TaskEntry, e: Event)
    requires IsRing(t) && t.qlen > 0 && Count(t) < t.qlen && RoomFor(t, 1)
    ensures var t', last := Post(t, e), Slot(t, t.qlen - 1);
            && IsRing(t') && t'.qlen == t.qlen && Count(t') == Count(t) + 1 && Slot(t', t.qlen - 1) == last
            && (t.qlen <= 127 || t'.iPut == t.iPut + 1)
            && t'.queue[last] == if Count(t) < t.qlen - 1 then t.queue[last] else e
  {
    PostAppends(t, e);
    SlotsDiffer(t);
  }

  lemma SlotsDiffer(t: TaskEntry)
    requires IsRing(t) && t.qlen > 0 && Count(t) < t.qlen
    ensures t.iPut == Slot(t, Count(t))
    ensures Count(t) < t.qlen - 1 ==> t.iPut != Slot(t, t.qlen - 1)
  {
  }

  lemma {:induction false} FullStays(t: TaskEntry, es: seq<Event>)
    requires IsRing(t) && t.qlen > 0 && Count(t) == t.qlen && RoomFor(t, |es|)
    ensures PostMany(t, es) == t
    decreases |es|
  {
    if es != [] {
      PostAppends(t, es[0]);
      FullStays(t, es[1..]);
    }
  }

  // ---------- which queues are rings ----------

  datatype RingOp = PutOne | GetOne

  /** What a post or the loop makes of the indices, which do not depend on the events. */
  function Moved(t: TaskEntry, op: RingOp): TaskEntry {
    match op
    case PutOne => if t.iPut == -1 then t else t.(iPut := AfterPut(t))
    case GetOne => if t.iGet == t.iPut then t else Take(t)
  }

  /** These are the moves of a post and of a taken event. */
  lemma MovedIs(t: TaskEntry, e: Event)
    requires IsRing(t) && t.qlen > 0
    ensures Moved(t, PutOne) == Post(t, e).(queue := t.queue)
    ensures Moved(t, GetOne) == if Count(t) == 0 then t else Take(t)
  {
    TakeRemoves(t);
  }

  function MovedBy(t: TaskEntry, ops: seq<RingOp>): TaskEntry {
    if ops == [] then t else Moved(MovedBy(t, ops[..|ops| - 1]), ops[|ops| - 1])
  }

  /** A new task, and n posts. */
  function NewTask(queue: seq<Event>): TaskEntry {
    TaskEntry(queue, |queue|, 0, 0)
  }

  function Puts(n: nat): seq<RingOp> {
    seq(n, _ => PutOne)
  }

  /** Both indices are slots of the queue, or the mark of a full one: the next post is refused or stored in it. */
  predicate InQueue(t: TaskEntry) {
    0 <= t.iGet < t.qlen && -1 <= t.iPut < t.qlen
  }

  lemma {:induction false} ShortStaysInQueue(t: TaskEntry, ops: seq<RingOp>)
    requires 0 < t.qlen <= 127 && InQueue(t)
    ensures InQueue(MovedBy(t, ops)) && MovedBy(t, ops).qlen == t.qlen
    decreases |ops|
  {
    if ops != [] {
      ShortStaysInQueue(t, ops[..|ops| - 1]);
      MoveStaysInQueue(MovedBy(t, ops[..|ops| - 1]), ops[|ops| - 1]);
    }
  }

  lemma MoveStaysInQueue(t: TaskEntry, op: RingOp)
    requires 0 < t.qlen <= 127 && InQueue(t)
    ensures InQueue(Moved(t, op)) && Moved(t, op).qlen == t.qlen
  {
  }

  /** The posts to a new task that has a longer queue: each moves the index by one, up to 127. */
  lemma {:induction false} PutsReach(t: TaskEntry, n: nat)
    requires t.qlen > 127 && t.iGet == t.iPut == 0 && n <= 127
    ensures MovedBy(t, Puts(n)) == t.(iPut := n)
  {
    if n > 0 {
      assert Puts(n)[..n - 1] == Puts(n - 1);
      PutsReach(t, n - 1);
    }
  }

  /** The 128th post is accepted and takes the index out of the queue. The next one is accepted as well, and is
      stored 128 events before the queue. */
  lemma LongQueuesBreak(t: TaskEntry)
    requires t.qlen > 127 && t.iGet == t.iPut == 0
    ensures MovedBy(t, Puts(127)).iPut == 127 && MovedBy(t, Puts(128)).iPut == -128
  {
    PutsReach(t, 127);
    assert Puts(128)[..127] == Puts(127);
  }

  /** The indices of a task stay in its queue in every run of posts and loops exactly if the queue has at most 127
      events. */
  lemma StaysInQueueIff(queue: seq<Event>)
    requires queue != []
    ensures (forall ops :: var t := MovedBy(NewTask(queue), ops); 0 <= t.iGet < |queue| && -1 <= t.iPut < |queue|)
            <==> |queue| <= 127
  {
    var t := NewTask(queue);
    if |queue| <= 127 {
      forall ops ensures InQueue(MovedBy(t, ops)) && MovedBy(t, ops).qlen == |queue| {
        ShortStaysInQueue(t, ops);
      }
    } else {
      LongQueuesBreak(t);
      assert MovedBy(t, Puts(128)).iPut == -128;
    }
  }
}
