/** esp8266/ets_alt_task.c:78-156 over whole runs: the queues of all tasks, what has been accepted and what has been
    delivered. Handlers and interrupts are lists of posts at the places where they can happen. */
module EtsRuns {
  import opened EtsQueues

  datatype Message = Message(id: nat, event: Event)

  /** For each task: its queue, the capacity, and all events so far that its queue took or its handler got. */
  datatype Lane = Lane(queue: seq<Event>, cap: nat, accepted: seq<Event>, delivered: seq<Event>)

  type System = seq<Lane>

  /** The tasks have queues, and these are rings. */
  predicate Registered(s: System, ms: seq<Message>) {
    forall i | 0 <= i < |ms| :: ms[i].id < |s| && 0 < s[ms[i].id].cap <= 127
  }

  /** ets_post: an event for a full queue is refused. */
  function PostTo(s: System, m: Message): (r: System)
    requires m.id < |s|
    ensures |r| == |s|
  {
    var l := s[m.id];
    if |l.queue| == l.cap then s
    else s[m.id := l.(queue := l.queue + [m.event], accepted := l.accepted + [m.event])]
  }

  function PostAll(s: System, ms: seq<Message>): (r: System)
    requires Registered(s, ms)
    ensures |r| == |s| && forall i | 0 <= i < |s| :: r[i].cap == s[i].cap
    decreases |ms|
  {
    if ms == [] then s
    else
      assert Registered(PostTo(s, ms[0]), ms[1..]);
      PostAll(PostTo(s, ms[0]), ms[1..])
  }

  /** The first event of a queue goes to the handler. */
  function Deliver(s: System, i: nat): (r: System)
    requires i < |s|
    ensures |r| == |s| && forall j | 0 <= j < |s| :: r[j].cap == s[j].cap
  {
    var l := s[i];
    if l.queue == [] then s else s[i := l.(queue := l.queue[1..], delivered := l.delivered + [l.queue[0]])]
  }

  /** One list of posts for each task: those of its handler, and of interrupts until the next task is served. */
  predicate IsSchedule(s: System, env: seq<seq<Message>>) {
    |env| == |s| && forall i | 0 <= i < |env| :: Registered(s, env[i])
  }

  /** The loop of ets_loop_iter from task i on. */
  function Serve(s: System, env: seq<seq<Message>>, i: nat): (r: System)
    requires IsSchedule(s, env) && i <= |s|
    ensures |r| == |s| && forall j | 0 <= j < |s| :: r[j].cap == s[j].cap
    decreases |s| - i
  {
    if i == |s| then s
    else
      var s1 := Deliver(s, i);
      assert Registered(s1, env[i]);
      var s2 := PostAll(s1, env[i]);
      assert IsSchedule(s2, env);
      Serve(s2, env, i + 1)
  }

  /** Whether the loop serves anyone. */
  function Progress(s: System, env: seq<seq<Message>>, i: nat): bool
    requires IsSchedule(s, env) && i <= |s|
    decreases |s| - i
  {
    i < |s| &&
    var s2 := PostAll(Deliver(s, i), env[i]);
    s[i].queue != [] || Progress(s2, env, i + 1)
  }

  lemma ServeStep(s: System, env: seq<seq<Message>>, i: nat)
    requires IsSchedule(s, env) && i < |s|
    ensures var s1 := Deliver(s, i);
            Registered(s1, env[i]) && IsSchedule(PostAll(s1, env[i]), env) &&
            Serve(s, env, i) == Serve(PostAll(s1, env[i]), env, i + 1) &&
            Progress(s, env, i) == (s[i].queue != [] || Progress(PostAll(s1, env[i]), env, i + 1))
  {
  }

  // ---------- nothing is lost, duplicated or reordered ----------

  ghost predicate Conserved(s: System) {
    forall i | 0 <= i < |s| :: IsConserved(s[i])
  }

  /** What was accepted is what was delivered and then what is queued, in this order. */
  ghost predicate IsConserved(l: Lane) {
    l.accepted == l.delivered + l.queue && |l.queue| <= l.cap
  }

  /** The lane has gone on: more may be accepted and more delivered, but nothing is taken back. */
  predicate GoesOn(l: Lane, l': Lane) {
    l.accepted <= l'.accepted && l.delivered <= l'.delivered && l.cap == l'.cap
  }

  lemma PostConserves(s: System, m: Message)
    requires Conserved(s) && m.id < |s|
    ensures Conserved(PostTo(s, m))
    ensures forall i | 0 <= i < |s| :: GoesOn(s[i], PostTo(s, m)[i]) && PostTo(s, m)[i].delivered == s[i].delivered
  {
    var l := s[m.id];
    assert l.accepted + [m.event] == l.delivered + (l.queue + [m.event]);
  }

  lemma {:induction false} PostsConserve(s: System, ms: seq<Message>)
    requires Conserved(s) && Registered(s, ms)
    ensures Conserved(PostAll(s, ms))
    ensures forall i | 0 <= i < |s| :: GoesOn(s[i], PostAll(s, ms)[i]) && PostAll(s, ms)[i].delivered == s[i].delivered
    decreases |ms|
  {
    if ms != [] {
      PostConserves(s, ms[0]);
      var s' := PostTo(s, ms[0]);
      assert Registered(s', ms[1..]);
      PostsConserve(s', ms[1..]);
      forall i | 0 <= i < |s|
        ensures GoesOn(s[i], PostAll(s, ms)[i]) && PostAll(s, ms)[i].delivered == s[i].delivered
      {
        GoesOnAndOn(s[i], s'[i], PostAll(s', ms[1..])[i]);
      }
    }
  }

  lemma GoesOnAndOn(a: Lane, b: Lane, c: Lane)
    requires GoesOn(a, b) && GoesOn(b, c)
    ensures GoesOn(a, c)
  {
  }

  lemma DeliverConserves(s: System, i: nat)
    requires Conserved(s) && i < |s|
    ensures Conserved(Deliver(s, i))
    ensures forall j | 0 <= j < |s| :: GoesOn(s[j], Deliver(s, i)[j])
    ensures |Deliver(s, i)[i].delivered| == |s[i].delivered| + if s[i].queue == [] then 0 else 1
  {
    var l := s[i];
    if l.queue != [] {
      assert l.delivered + l.queue == l.delivered + [l.queue[0]] + l.queue[1..];
    }
  }

  /** In every iteration of the loop, each task that has events when its turn comes gets one of them. */
  lemma {:induction false} ServeConserves(s: System, env: seq<seq<Message>>, i: nat, j: nat)
    requires Conserved(s) && IsSchedule(s, env) && i <= |s| && j < |s|
    ensures Conserved(Serve(s, env, i))
    ensures GoesOn(s[j], Serve(s, env, i)[j])
    ensures i <= j && s[j].queue != [] ==> |Serve(s, env, i)[j].delivered| > |s[j].delivered|
    decreases |s| - i
  {
    if i < |s| {
      var s1 := Deliver(s, i);
      DeliverConserves(s, i);
      assert Registered(s1, env[i]);
      var s2 := PostAll(s1, env[i]);
      PostsConserve(s1, env[i]);
      assert IsSchedule(s2, env);
      ServeConserves(s2, env, i + 1, j);
      GoesOnAndOn(s[j], s1[j], s2[j]);
      GoesOnAndOn(s[j], s2[j], Serve(s2, env, i + 1)[j]);
      if i < j && s[j].queue != [] {
        StillQueued(s[j], s2[j]);
      }
    }
  }

  /** A lane that has delivered nothing still has the events it had. */
  lemma StillQueued(l: Lane, l': Lane)
    requires IsConserved(l) && IsConserved(l') && GoesOn(l, l') && l.queue != [] && l'.delivered == l.delivered
    ensures l'.queue != []
  {
  }

  /** Several iterations, with posts before each of them. */
  datatype Round = Round(before: seq<Message>, env: seq<seq<Message>>)

  predicate IsRun(s: System, rounds: seq<Round>) {
    forall i | 0 <= i < |rounds| :: Registered(s, rounds[i].before) && IsSchedule(s, rounds[i].env)
  }

  function AfterRound(s: System, r: Round): (s': System)
    requires Registered(s, r.before) && IsSchedule(s, r.env)
    ensures |s'| == |s| && forall i | 0 <= i < |s| :: s'[i].cap == s[i].cap
  {
    var s1 := PostAll(s, r.before);
    assert IsSchedule(s1, r.env);
    Serve(s1, r.env, 0)
  }

  function AfterRounds(s: System, rounds: seq<Round>): (s': System)
    requires IsRun(s, rounds)
    ensures |s'| == |s|
    decreases |rounds|
  {
    if rounds == [] then s
    else
      var s1 := AfterRound(s, rounds[0]);
      assert IsRun(s1, rounds[1..]);
      AfterRounds(s1, rounds[1..])
  }

  lemma RoundServes(s: System, r: Round, j: nat)
    requires Conserved(s) && Registered(s, r.before) && IsSchedule(s, r.env) && j < |s|
    ensures Conserved(AfterRound(s, r)) && GoesOn(s[j], AfterRound(s, r)[j])
    ensures s[j].queue != [] ==> |AfterRound(s, r)[j].delivered| > |s[j].delivered|
  {
    var s1 := PostAll(s, r.before);
    PostsConserve(s, r.before);
    assert IsSchedule(s1, r.env);
    ServeConserves(s1, r.env, 0, j);
    GoesOnAndOn(s[j], s1[j], Serve(s1, r.env, 0)[j]);
    if s[j].queue != [] {
      StillQueued(s[j], s1[j]);
    }
  }

  /** An event with k others ahead of it in its queue is delivered by the (k+1)-th iteration, right behind these,
      whatever is posted meanwhile. */
  lemma EventIsDelivered(s: System, rounds: seq<Round>, j: nat, k: nat)
    requires Conserved(s) && IsRun(s, rounds) && j < |s| && k < |s[j].queue| && |rounds| == k + 1
    ensures var d, n := AfterRounds(s, rounds)[j].delivered, |s[j].delivered| + k;
            n < |d| && d[n] == s[j].queue[k] && d[..n] == s[j].delivered + s[j].queue[..k]
  {
    RunServes(s, rounds, j);
    DeliveredIsPrefix(s[j], AfterRounds(s, rounds)[j], k);
  }

  lemma DeliveredIsPrefix(l: Lane, l': Lane, k: nat)
    requires IsConserved(l) && IsConserved(l') && GoesOn(l, l') && k < |l.queue| && |l'.delivered| > |l.delivered| + k
    ensures var n := |l.delivered| + k;
            l'.delivered[n] == l.queue[k] && l'.delivered[..n] == l.delivered + l.queue[..k]
  {
    assert l'.delivered <= l'.accepted && l.accepted <= l'.accepted;
    var n := |l.delivered| + k;
    assert l'.delivered[n] == l'.accepted[n] == l.accepted[n] == l.queue[k];
    assert l'.delivered[..n] == l'.accepted[..n] == l.accepted[..n] == l.delivered + l.queue[..k];
  }

  /** In every run, nothing is lost, and each iteration delivers an event of each task that has accepted more than
      it has got. */
  lemma {:induction false} RunServes(s: System, rounds: seq<Round>, j: nat)
    requires Conserved(s) && IsRun(s, rounds) && j < |s|
    ensures Conserved(AfterRounds(s, rounds)) && GoesOn(s[j], AfterRounds(s, rounds)[j])
    ensures var d := |s[j].delivered| + |rounds|;
            |AfterRounds(s, rounds)[j].delivered| >= if d <= |s[j].accepted| then d else |s[j].accepted|
    decreases |rounds|
  {
    if rounds != [] {
      var s1 := AfterRound(s, rounds[0]);
      RoundServes(s, rounds[0], j);
      assert IsRun(s1, rounds[1..]);
      RunServes(s1, rounds[1..], j);
      GoesOnAndOn(s[j], s1[j], AfterRounds(s1, rounds[1..])[j]);
    }
  }

  // ---------- the microsecond counter ----------

  const WORD := 0x1_0000_0000

  /** Lines 124-129: the high word counts the overflows of the low one that are seen. */
  function HighWord(high: nat, prev: nat, cur: nat): nat {
    if cur < prev then (high + 1) % 0x1_0000_0000 else high
  }

  /** The two words are the time exactly if less than one round of the low word has passed between two
      iterations. */
  lemma TimeIsRightIff(before: nat, now: nat)
    requires before <= now < WORD * WORD
    ensures HighWord(before / WORD, before % WORD, now % WORD) * WORD + now % WORD == now
            <==> now - before < WORD
  {
  }
}
