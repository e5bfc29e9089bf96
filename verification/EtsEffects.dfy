/** esp8266/ets_alt_task.c: what a post and an iteration of the loop do to the queue of each task. */
module EtsEffects {
  import opened EtsQueues
  import opened EtsRuns
  import opened EtsAltTask

  ghost predicate Fits(s: System) {
    forall i | 0 <= i < |s| :: |s[i].queue| <= s[i].cap
  }

  // ---------- one post ----------

  /** A post to a queue with room appends the event and counts it as accepted; a full queue stays as it is. The other
      queues are not touched. */
  lemma PostGrows(s: System, m: Message)
    requires m.id < |s| && |s[m.id].queue| <= s[m.id].cap
    ensures var r, l := PostTo(s, m), s[m.id];
            && |r| == |s| && (forall j | 0 <= j < |s| && j != m.id :: r[j] == s[j])
            && (if |l.queue| < l.cap then
                  r[m.id] == Lane(l.queue + [m.event], l.cap, l.accepted + [m.event], l.delivered)
                else r[m.id] == l)
  {
  }

  /** The ring that stands for the queue is filled in the same way. */
  lemma RingIsPosted(t: TaskEntry, s: System, m: Message)
    requires m.id < |s| && Stands(t, s[m.id]) && t.qlen > 0 && RoomFor(t, 1)
    ensures IsRing(Post(t, m.event)) && Contents(Post(t, m.event)) == PostTo(s, m)[m.id].queue
    ensures Contents(Post(t, m.event)) == if |s[m.id].queue| < t.qlen then s[m.id].queue + [m.event] else s[m.id].queue
  {
    PostAppends(t, m.event);
  }

  lemma StillARun(s: System, m: Message, rounds: seq<Round>)
    requires m.id < |s| && IsRun(s, rounds)
    ensures IsRun(PostTo(s, m), rounds)
  {
  }

  /** The last event of a queue is delivered behind the others. */
  lemma LastIsDelivered(s: System, rounds: seq<Round>, j: nat, q: seq<Event>, e: Event)
    requires Conserved(s) && IsRun(s, rounds) && j < |s| && s[j].queue == q + [e] && |rounds| == |q| + 1
    ensures s[j].delivered + q + [e] <= AfterRounds(s, rounds)[j].delivered
  {
    EventIsDelivered(s, rounds, j, |q|);
    LastOfPrefix(s[j].delivered, q, e, AfterRounds(s, rounds)[j].delivered);
  }

  /** A message that is posted while there is room is delivered, right behind the events that are ahead of it, as soon
      as there has been an iteration for each of these and one more, whatever else is posted meanwhile. */
  lemma PostedIsDelivered(s: System, m: Message, rounds: seq<Round>)
    requires Conserved(s) && m.id < |s| && |s[m.id].queue| < s[m.id].cap && IsRun(s, rounds)
    requires |rounds| == |s[m.id].queue| + 1
    ensures IsRun(PostTo(s, m), rounds)
    ensures s[m.id].delivered + s[m.id].queue + [m.event] <= AfterRounds(PostTo(s, m), rounds)[m.id].delivered
  {
    StillARun(s, m, rounds);
    PostConserves(s, m);
    LastIsDelivered(PostTo(s, m), rounds, m.id, s[m.id].queue, m.event);
  }

  lemma LastOfPrefix(a: seq<Event>, q: seq<Event>, e: Event, d: seq<Event>)
    requires var n := |a| + |q|; n < |d| && d[n] == (q + [e])[|q|] && d[..n] == a + (q + [e])[..|q|]
    ensures a + q + [e] <= d
  {
    var n := |a| + |q|;
    assert d[..n + 1] == d[..n] + [d[n]];
  }

  // ---------- many posts ----------

  /** The events that are posted to task j. */
  function EventsFor(ms: seq<Message>, j: nat): seq<Event> {
    if ms == [] then [] else (if ms[0].id == j then [ms[0].event] else []) + EventsFor(ms[1..], j)
  }

  lemma {:induction false} EventsForAppend(a: seq<Message>, b: seq<Message>, j: nat)
    ensures EventsFor(a + b, j) == EventsFor(a, j) + EventsFor(b, j)
    decreases |a|
  {
    if a == [] {
      assert a + b == b;
    } else {
      var c, first := a + b, if a[0].id == j then [a[0].event] else [];
      assert c[0] == a[0] && c[1..] == a[1..] + b;
      EventsForAppend(a[1..], b, j);
      assert EventsFor(c, j) == first + (EventsFor(a[1..], j) + EventsFor(b, j));
    }
  }

  /** The first n events, or all of them. */
  function Upto(es: seq<Event>, n: nat): seq<Event> {
    if |es| <= n then es else es[..n]
  }

  lemma UptoTwice(a: seq<Event>, b: seq<Event>, n: nat)
    ensures Upto(Upto(a, n) + b, n) == Upto(a + b, n)
  {
  }

  lemma PostFills(s: System, m: Message, j: nat)
    requires Fits(s) && m.id < |s| && j < |s|
    ensures Fits(PostTo(s, m))
    ensures PostTo(s, m)[j].queue == Upto(s[j].queue + (if m.id == j then [m.event] else []), s[j].cap)
    ensures PostTo(s, m)[j].delivered == s[j].delivered && PostTo(s, m)[j].cap == s[j].cap
  {
    PostGrows(s, m);
    assert s[j].queue + [] == s[j].queue;
  }

  lemma FilledOn(q: seq<Event>, first: seq<Event>, more: seq<Event>, cap: nat)
    ensures Upto(Upto(q + first, cap) + more, cap) == Upto(q + (first + more), cap)
  {
    UptoTwice(q + first, more, cap);
    assert (q + first) + more == q + (first + more);
  }

  /** The posts leave in each queue what was there and the events for it, in their order, up to the capacity. */
  lemma {:induction false} PostsFill(s: System, ms: seq<Message>, j: nat)
    requires Fits(s) && Registered(s, ms) && j < |s|
    ensures Fits(PostAll(s, ms))
    ensures PostAll(s, ms)[j].queue == Upto(s[j].queue + EventsFor(ms, j), s[j].cap)
    ensures PostAll(s, ms)[j].delivered == s[j].delivered
    decreases |ms|
  {
    if ms == [] {
      assert s[j].queue + [] == s[j].queue;
    } else {
      var s1, first := PostTo(s, ms[0]), if ms[0].id == j then [ms[0].event] else [];
      PostFills(s, ms[0], j);
      assert Registered(s1, ms[1..]);
      PostsFill(s1, ms[1..], j);
      FilledOn(s[j].queue, first, EventsFor(ms[1..], j), s[j].cap);
    }
  }

  // ---------- one iteration of the loop ----------

  /** All posts from the turn of task i to the turn of task k. */
  function PostsBetween(env: seq<seq<Message>>, i: nat, k: nat): seq<Message>
    requires i <= k <= |env|
    decreases k - i
  {
    if i == k then [] else env[i] + PostsBetween(env, i + 1, k)
  }

  /** The queue of task j when its turn comes. */
  function AtTurn(l: Lane, env: seq<seq<Message>>, i: nat, j: nat): seq<Event>
    requires i <= j <= |env|
  {
    Upto(l.queue + EventsFor(PostsBetween(env, i, j), j), l.cap)
  }

  /** What the loop from task i on makes of a task whose turn comes: the first event of its queue is delivered, and the
      posts after that are queued behind the rest. */
  ghost predicate IsServed(l: Lane, l': Lane, env: seq<seq<Message>>, i: nat, j: nat)
    requires i <= j < |env|
  {
    var q := AtTurn(l, env, i, j);
    && l'.delivered == l.delivered + Upto(q, 1)
    && l'.queue == Upto((if q == [] then [] else q[1..]) + EventsFor(PostsBetween(env, j, |env|), j), l.cap)
  }

  ghost predicate IsPassed(l: Lane, l': Lane, env: seq<seq<Message>>, i: nat, j: nat)
    requires i <= |env|
  {
    && l'.delivered == l.delivered
    && l'.queue == Upto(l.queue + EventsFor(PostsBetween(env, i, |env|), j), l.cap)
  }

  lemma PassedOn(l: Lane, l1: Lane, l': Lane, env: seq<seq<Message>>, i: nat, j: nat)
    requires i < |env| && l1.cap == l.cap && l1.delivered == l.delivered && l1.queue == Upto(l.queue + EventsFor(env[i], j), l.cap)
    requires IsPassed(l1, l', env, i + 1, j)
    ensures IsPassed(l, l', env, i, j)
  {
    var now, later := EventsFor(env[i], j), EventsFor(PostsBetween(env, i + 1, |env|), j);
    EventsForAppend(env[i], PostsBetween(env, i + 1, |env|), j);
    FilledOn(l.queue, now, later, l.cap);
  }

  lemma ServedLater(l: Lane, l1: Lane, l': Lane, env: seq<seq<Message>>, i: nat, j: nat)
    requires i < j < |env| && l1.cap == l.cap && l1.delivered == l.delivered && l1.queue == Upto(l.queue + EventsFor(env[i], j), l.cap)
    requires IsServed(l1, l', env, i + 1, j)
    ensures IsServed(l, l', env, i, j)
  {
    var now, later := EventsFor(env[i], j), EventsFor(PostsBetween(env, i + 1, j), j);
    EventsForAppend(env[i], PostsBetween(env, i + 1, j), j);
    FilledOn(l.queue, now, later, l.cap);
  }

  lemma ServedNow(l: Lane, l1: Lane, l': Lane, env: seq<seq<Message>>, i: nat)
    requires i < |env| && |l.queue| <= l.cap && l1.cap == l.cap && l1.delivered == l.delivered + Upto(l.queue, 1)
    requires IsPassed(l1, l', env, i, i) && l1.queue == if l.queue == [] then [] else l.queue[1..]
    ensures IsServed(l, l', env, i, i)
  {
    assert l.queue + EventsFor([], i) == l.queue;
  }

  lemma DeliverTakes(s: System, i: nat)
    requires i < |s|
    ensures var r, l := Deliver(s, i), s[i];
            && |r| == |s| && (forall j | 0 <= j < |s| && j != i :: r[j] == s[j])
            && r[i].cap == l.cap && r[i].accepted == l.accepted
            && r[i].delivered == l.delivered + Upto(l.queue, 1)
            && r[i].queue == if l.queue == [] then [] else l.queue[1..]
  {
    assert s[i].delivered + [] == s[i].delivered;
  }

  /** One turn of the loop, and what it leaves of task j before the next turn. */
  lemma TurnOf(s: System, env: seq<seq<Message>>, i: nat, j: nat)
    requires Fits(s) && IsSchedule(s, env) && i < |s| && j < |s|
    ensures Registered(Deliver(s, i), env[i])
    ensures var s1 := Deliver(s, i); var s2 := PostAll(s1, env[i]);
            && IsSchedule(s2, env) && Fits(s2) && s2[j].delivered == s1[j].delivered && s2[j].cap == s1[j].cap == s[j].cap
            && s2[j].queue == Upto(s1[j].queue + EventsFor(env[i], j), s[j].cap)
            && (i != j ==> s1[j] == s[j])
  {
    DeliverTakes(s, i);
    ServeStep(s, env, i);
    PostsFill(Deliver(s, i), env[i], j);
  }

  /** What the loop makes of task j from the turn of task i on. */
  ghost predicate IsLane(l: Lane, l': Lane, env: seq<seq<Message>>, i: nat, j: nat)
    requires i <= |env| && j < |env|
  {
    if i <= j then IsServed(l, l', env, i, j) else IsPassed(l, l', env, i, j)
  }

  lemma TurnBefore(l: Lane, l1: Lane, l2: Lane, l': Lane, env: seq<seq<Message>>, i: nat, j: nat)
    requires i < |env| && j < |env| && |l.queue| <= l.cap && l2.cap == l1.cap == l.cap && l2.delivered == l1.delivered
    requires l2.queue == Upto(l1.queue + EventsFor(env[i], j), l.cap)
    requires if i != j then l1 == l
             else l1.delivered == l.delivered + Upto(l.queue, 1) && l1.queue == if l.queue == [] then [] else l.queue[1..]
    requires IsLane(l2, l', env, i + 1, j)
    ensures IsLane(l, l', env, i, j)
  {
    if i < j {
      ServedLater(l1, l2, l', env, i, j);
    } else {
      PassedOn(l1, l2, l', env, i, j);
      if i == j {
        ServedNow(l, l1, l', env, i);
      }
    }
  }

  /** The exact result of the loop for every task: the tasks have their turns in order, each gets at most one event, and
      an event that is posted before the turn of its task can still be delivered in the same iteration. */
  lemma {:induction false} ServeLane(s: System, env: seq<seq<Message>>, i: nat, j: nat)
    requires Fits(s) && IsSchedule(s, env) && i <= |s| && j < |s|
    ensures IsLane(s[j], Serve(s, env, i)[j], env, i, j)
    decreases |s| - i
  {
    if i == |s| {
      assert s[j].queue + EventsFor([], j) == s[j].queue;
    } else {
      TurnOf(s, env, i, j);
      ServeStep(s, env, i);
      DeliverTakes(s, i);
      var s1 := Deliver(s, i);
      var s2 := PostAll(s1, env[i]);
      ServeLane(s2, env, i + 1, j);
      TurnBefore(s[j], s1[j], s2[j], Serve(s, env, i)[j], env, i, j);
    }
  }

  lemma TurnDelivers(s: System, env: seq<seq<Message>>, i: nat)
    requires Fits(s) && IsSchedule(s, env) && i < |s|
    ensures Registered(Deliver(s, i), env[i])
    ensures var s2 := PostAll(Deliver(s, i), env[i]);
            && IsSchedule(s2, env) && Fits(s2)
            && forall j | 0 <= j < |s| ::
                 |s2[j].delivered| == |s[j].delivered| + if i == j && s[j].queue != [] then 1 else 0
  {
    DeliverTakes(s, i);
    TurnOf(s, env, i, i);
    forall j | 0 <= j < |s|
      ensures |PostAll(Deliver(s, i), env[i])[j].delivered|
           == |s[j].delivered| + if i == j && s[j].queue != [] then 1 else 0
    {
      TurnOf(s, env, i, j);
    }
  }

  /** Some handler gets an event from the turn of task i on. */
  ghost predicate SomeGets(s: System, last: System)
    requires |s| == |last|
  {
    exists j :: 0 <= j < |s| && |last[j].delivered| > |s[j].delivered|
  }

  lemma SomeGetsStep(s: System, s2: System, last: System, i: nat, p: bool, p2: bool)
    requires i < |s| == |s2| == |last| && |last[i].delivered| == |s2[i].delivered|
    requires p == (s[i].queue != [] || p2) && p2 == SomeGets(s2, last)
    requires forall j | 0 <= j < |s| ::
               |s2[j].delivered| == |s[j].delivered| + if i == j && s[j].queue != [] then 1 else 0
    ensures p == SomeGets(s, last)
  {
  }

  /** The loop reports progress exactly if some handler has got an event. */
  lemma {:induction false} ProgressIff(s: System, env: seq<seq<Message>>, i: nat)
    requires Fits(s) && IsSchedule(s, env) && i <= |s|
    ensures Progress(s, env, i) <==> SomeGets(s, Serve(s, env, i))
    decreases |s| - i
  {
    if i < |s| {
      TurnDelivers(s, env, i);
      ServeStep(s, env, i);
      var s2 := PostAll(Deliver(s, i), env[i]);
      ProgressIff(s2, env, i + 1);
      ServeLane(s2, env, i + 1, i);
      SomeGetsStep(s, s2, Serve(s, env, i), i, Progress(s, env, i), Progress(s2, env, i + 1));
    }
  }

  /** The high word of the time is a 32-bit counter: it wraps like the low one. */
  lemma HighWordWraps(prev: nat, cur: nat)
    requires cur < prev
    ensures HighWord(0xffff_ffff, prev, cur) == 0
    ensures forall high: nat | high < 0xffff_ffff :: HighWord(high, prev, cur) == high + 1
  {
  }
}
