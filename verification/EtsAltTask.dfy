/** esp8266/ets_alt_task.c:21-156: the table of tasks and the loop that serves them. */
module EtsAltTask {
  import opened EtsQueues
  import opened EtsRuns

  const LAST_PRIO := 0x20

  class EtsTasks {
    /** FIRST_PRIO, which depends on the version of the SDK. */
    const firstPrio: nat
    const emuTasks: array<TaskEntry>
    var loopIterDisable: bool
    var systemTimePrev: nat
    var systemTimeHighWord: nat
    /** The queues that the rings stand for, and their history. */
    ghost var lanes: System

    ghost predicate Valid()
      reads this, emuTasks
    {
      && firstPrio <= LAST_PRIO && emuTasks.Length == LAST_PRIO - firstPrio + 1 == |lanes|
      && (forall i | 0 <= i < |lanes| :: Stands(emuTasks[i], lanes[i]))
      && Conserved(lanes)
    }

    constructor (firstPrio: nat)
      requires firstPrio <= LAST_PRIO
      ensures Valid() && fresh(emuTasks) && this.firstPrio == firstPrio && !loopIterDisable
      ensures lanes == seq(|lanes|, i => Lane([], 0, [], []))
      ensures systemTimePrev == systemTimeHighWord == 0
    {
      this.firstPrio := firstPrio;
      emuTasks := new TaskEntry[LAST_PRIO - firstPrio + 1](i => TaskEntry([], 0, 0, 0));
      loopIterDisable, systemTimePrev, systemTimeHighWord := false, 0, 0;
      lanes := seq(LAST_PRIO - firstPrio + 1, i => Lane([], 0, [], []));
    }

    /** ets_task: a task gets its queue, which is empty then. */
    method EtsTask(prio: nat, queue: seq<Event>, qlen: nat)
      requires Valid() && firstPrio <= prio <= LAST_PRIO && 0 < qlen == |queue| <= 255
      modifies this`lanes, emuTasks
      ensures Valid() && lanes == old(lanes)[prio - firstPrio := Lane([], qlen, [], [])]
    {
      var id := prio - firstPrio;
      emuTasks[id] := TaskEntry(queue, qlen, 0, 0);
      lanes := lanes[id := Lane([], qlen, [], [])];
    }

    /** ets_post: true if the queue is full. */
    method EtsPost(prio: nat, sig: nat, par: nat) returns (full: bool)
      requires Valid() && firstPrio <= prio <= LAST_PRIO && CanPost(lanes[prio - firstPrio])
      modifies this`lanes, emuTasks
      ensures Valid() && lanes == PostTo(old(lanes), Message(prio - firstPrio, Event(sig, par)))
      ensures full == old(|lanes[prio - firstPrio].queue| == lanes[prio - firstPrio].cap)
      ensures full ==> lanes == old(lanes) && emuTasks[..] == old(emuTasks[..])
      ensures !full ==> var id, e := prio - firstPrio, Event(sig, par);
                && emuTasks[..] == old(emuTasks[..])[id := emuTasks[id]]
                && Contents(emuTasks[id]) == old(Contents(emuTasks[id])) + [e]
                && lanes[id].accepted == old(lanes)[id].accepted + [e]
    {
      var id := prio - firstPrio;
      ghost var m := Message(id, Event(sig, par));
      PostAppends(emuTasks[id], Event(sig, par));
      PostConserves(lanes, m);
      if emuTasks[id].iPut == -1 {
        return true;
      }
      PutEvent(id, Event(sig, par));
      lanes := PostTo(lanes, m);
      return false;
    }

    /** Lines 92-101. */
    method PutEvent(id: nat, e: Event)
      requires id < emuTasks.Length && IsRing(emuTasks[id]) && emuTasks[id].qlen > 0 && emuTasks[id].iPut != -1
      requires RoomFor(emuTasks[id], 1)
      modifies emuTasks
      ensures emuTasks[..] == old(emuTasks[..])[id := Post(old(emuTasks[id]), e)]
    {
      var put := emuTasks[id].iPut;
      emuTasks[id] := emuTasks[id].(queue := emuTasks[id].queue[put := e], iPut := Int8(put + 1));
      if emuTasks[id].iPut == emuTasks[id].qlen {
        emuTasks[id] := emuTasks[id].(iPut := 0);
      }
      if emuTasks[id].iPut == emuTasks[id].iGet {
        emuTasks[id] := emuTasks[id].(iPut := -1);
      }
    }

    /** Posts of handlers and interrupts. */
    method PostMessages(ms: seq<Message>)
      requires Valid() && Registered(lanes, ms)
      modifies this`lanes, emuTasks
      ensures Valid() && lanes == PostAll(old(lanes), ms)
      decreases |ms|
    {
      if ms != [] {
        var _ := EtsPost(firstPrio + ms[0].id, ms[0].event.sig, ms[0].event.par);
        PostMessages(ms[1..]);
      }
    }

    /** Lines 137-152: one task gets the first event of its queue, if there is one. */
    method ServeTask(i: nat) returns (served: bool, event: Event)
      requires Valid() && i < |lanes|
      modifies this`lanes, emuTasks
      ensures Valid() && lanes == Deliver(old(lanes), i)
      ensures served == old(lanes[i].queue != []) && (served ==> event == old(lanes)[i].queue[0])
    {
      TakeRemoves(emuTasks[i]);
      DeliverConserves(lanes, i);
      served, event := false, Event(0, 0);
      if emuTasks[i].iGet != emuTasks[i].iPut {
        served := true;
        var idx := emuTasks[i].iGet;
        if emuTasks[i].iPut == -1 {
          emuTasks[i] := emuTasks[i].(iPut := emuTasks[i].iGet);
        }
        emuTasks[i] := emuTasks[i].(iGet := Int8(emuTasks[i].iGet + 1));
        if emuTasks[i].iGet == emuTasks[i].qlen {
          emuTasks[i] := emuTasks[i].(iGet := 0);
        }
        event := emuTasks[i].queue[idx];
        lanes := Deliver(lanes, i);
      }
    }

    /** ets_loop_iter, with the posts that happen in its course. */
    method LoopIter(systemTime: nat, env: seq<seq<Message>>) returns (progress: bool)
      requires Valid() && IsSchedule(lanes, env)
      modifies this`lanes, this`systemTimePrev, this`systemTimeHighWord, emuTasks
      ensures Valid()
      ensures loopIterDisable ==>
                !progress && lanes == old(lanes) && emuTasks[..] == old(emuTasks[..]) &&
                systemTimePrev == old(systemTimePrev) && systemTimeHighWord == old(systemTimeHighWord)
      ensures !loopIterDisable ==>
                && lanes == Serve(old(lanes), env, 0) && progress == Progress(old(lanes), env, 0)
                && systemTimePrev == systemTime
                && systemTimeHighWord == HighWord(old(systemTimeHighWord), old(systemTimePrev), systemTime)
    {
      if loopIterDisable {
        return false;
      }
      if systemTime < systemTimePrev {
        systemTimeHighWord := (systemTimeHighWord + 1) % 0x1_0000_0000;
      }
      systemTimePrev := systemTime;
      progress := ServeAll(env);
    }

    /** Lines 132-155: the loop over the tasks. */
    method ServeAll(env: seq<seq<Message>>) returns (progress: bool)
      requires Valid() && IsSchedule(lanes, env)
      modifies this`lanes, emuTasks
      ensures Valid() && lanes == Serve(old(lanes), env, 0) && progress == Progress(old(lanes), env, 0)
    {
      progress := false;
      var i := 0;
      while i < emuTasks.Length
        invariant 0 <= i <= |lanes| && Valid() && IsSchedule(lanes, env)
        invariant Serve(old(lanes), env, 0) == Serve(lanes, env, i)
        invariant Progress(old(lanes), env, 0) == (progress || Progress(lanes, env, i))
        decreases |lanes| - i
      {
        ServeStep(lanes, env, i);
        var served, event := ServeTask(i);
        PostMessages(env[i]);
        progress := progress || served;
        i := i + 1;
      }
    }
  }

  /** The ring holds the queue of the lane. */
  ghost predicate Stands(t: TaskEntry, l: Lane) {
    IsRing(t) && t.qlen == l.cap && Contents(t) == l.queue && (t.qlen > 127 ==> t.iPut == |l.accepted|)
  }

  /** A task can be posted to if it has a queue; one of more than 127 events takes 127 posts in all. */
  ghost predicate CanPost(l: Lane) {
    0 < l.cap && (l.cap <= 127 || |l.accepted| < 127)
  }
}
