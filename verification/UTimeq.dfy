/** extmod/modutimeq.c: a queue of callbacks ordered by wrapping tick time. */
module UTimeq {
  import opened BinaryHeap
  import opened Ticks
  import opened Wrappers

  /** A Python object; the queue never looks inside one. */
  datatype Object = Null | Obj(id: nat)

  datatype QEntry = QEntry(time: int, id: int, callback: Object, args: Object)

  datatype Exception = IndexError | TypeError

  // ---------- time_less_than ----------

  /** Ring order on times, ids between equal times. The subtraction is done in machine words and the sign
      test reads the word as a signed number. */
  predicate TimeLessThan(c: Clock, item: QEntry, parent: QEntry) {
    var res := (parent.time - item.time) % c.word;
    if res == 0 then
      item.id < parent.id
    else
      var wrapped := if res >= c.word / 2 then (res + c.Period()) % c.word else res;
      wrapped != 0 && wrapped < c.half
  }

  function LessThan(c: Clock): (QEntry, QEntry) -> bool {
    (item, parent) => TimeLessThan(c, item, parent)
  }

  lemma WordRange(c: Clock, x: int)
    requires -c.word < x < c.word
    ensures x % c.word == if x < 0 then x + c.word else x
  {
    if x < 0 {
      ModUnique(x, -1, x + c.word, c.word);
    } else {
      ModUnique(x, 0, x, c.word);
    }
  }

  lemma DiffInPeriod(c: Clock, x: int)
    requires -c.Period() < x < c.Period()
    ensures var d := (x + c.half) % c.word % c.Period() - c.half;
            d == if x < -c.half then x + c.Period() else if x < c.half then x else x - c.Period()
  {
    ModMod(x + c.half, c);
    var k := if x < -c.half then -1 else if x < c.half then 0 else 1;
    ModUnique(x + c.half, k, x + c.half - k * c.Period(), c.Period());
  }

  /** For tick values that differ, the comparison with its branches agrees with the sign of the
      branch-free ticks_diff. */
  lemma LessThanIsPositiveDiff(c: Clock, a: QEntry, b: QEntry)
    requires 0 <= a.time < c.Period() && 0 <= b.time < c.Period() && a.time != b.time
    ensures TimeLessThan(c, a, b) <==> TicksDiff(c, b.time, a.time) > 0
  {
    var x := b.time - a.time;
    WordRange(c, x);
    WordRange(c, if x < 0 then x + c.Period() else x);
    if x < 0 {
      ModMultiple(x + c.Period(), 1, c.word);
      assert (x + c.word + c.Period()) % c.word == x + c.Period();
    }
    DiffInPeriod(c, x);
  }

  /** Two comparisons in a row carry over to the third exactly if the differences add up to less than half a period;
      entries of equal times are ordered by their ids. */
  lemma LessThanIsTransitiveIff(c: Clock, a: QEntry, b: QEntry, d: QEntry)
    requires 0 <= a.time < c.Period() && 0 <= b.time < c.Period() && 0 <= d.time < c.Period()
    requires TimeLessThan(c, a, b) && TimeLessThan(c, b, d)
    ensures TimeLessThan(c, a, d) <==> TicksDiff(c, b.time, a.time) + TicksDiff(c, d.time, b.time) < c.half
  {
    WordRange(c, 0);
    LessThanByGap(c, a, b);
    LessThanByGap(c, b, d);
    LessThanByGap(c, a, d);
  }

  /** The comparison and ticks_diff by the gap between two times. */
  lemma LessThanByGap(c: Clock, a: QEntry, b: QEntry)
    requires 0 <= a.time < c.Period() && 0 <= b.time < c.Period()
    ensures var x := b.time - a.time;
            && TicksDiff(c, b.time, a.time) ==
                 (if x < -c.half then x + c.Period() else if x < c.half then x else x - c.Period())
            && (TimeLessThan(c, a, b) <==> if x == 0 then a.id < b.id else TicksDiff(c, b.time, a.time) > 0)
  {
    WordRange(c, 0);
    DiffInPeriod(c, b.time - a.time);
    if a.time != b.time {
      LessThanIsPositiveDiff(c, a, b);
    }
  }

  /** So the comparison is not an order on all tick values: whatever the period, there are three times in a
      cycle. This is why a queue needs its deadlines within half a period. */
  lemma LessThanIsNotTransitive(c: Clock, a: QEntry, b: QEntry, d: QEntry)
    requires c.half >= 3
    requires a.time == 0 && b.time == c.half - 1 && d.time == 2 * c.half - 2
    ensures TimeLessThan(c, a, b) && TimeLessThan(c, b, d) && TimeLessThan(c, d, a)
  {
    LessThanByGap(c, a, b);
    LessThanByGap(c, b, d);
    LessThanByGap(c, d, a);
  }

  // ---------- the queue object ----------

  /** The static utimeq_id, shared by all queues: a machine word. */
  class IdCounter {
    var next: int

    constructor ()
      ensures next == 0
    {
      next := 0;
    }
  }

  class TimeQueue {
    const clock: Clock
    const items: array<QEntry>
    var len: nat

    ghost predicate Valid()
      reads this
    {
      len <= items.Length
    }

    ghost function Contents(): seq<QEntry>
      reads this, items
      requires Valid()
    {
      items[..len]
    }

    constructor (clock: Clock, alloc: nat)
      ensures Valid() && fresh(items) && items.Length == alloc && this.clock == clock
      ensures Contents() == []
    {
      this.clock := clock;
      items := new QEntry[alloc](_ => QEntry(0, 0, Null, Null));
      len := 0;
    }

    /** `less` is time_less_than for this queue's clock. */
    method HeapSiftDown(less: (QEntry, QEntry) -> bool, ghost n: nat, startPos: nat, pos: nat)
      requires pos < n <= items.Length
      modifies items
      ensures items[..n] == SiftDown(less, old(items[..n]), startPos, pos)
      ensures forall k | n <= k < items.Length :: items[k] == old(items[k])
    {
      ghost var s := items[..n];
      ghost var goal := SiftDown(less, s, startPos, pos);
      var p := pos;
      var item := items[p];
      while p > startPos
        invariant p < n == |s| && s[p] == item
        invariant forall k | 0 <= k < n && k != p :: items[k] == s[k]
        invariant SiftDown(less, s, startPos, p) == goal
        invariant forall k | n <= k < items.Length :: items[k] == old(items[k])
      {
        var parentPos := (p - 1) / 2;
        var parent := items[parentPos];
        if less(item, parent) {
          s := Swap(s, p, parentPos);
          items[p] := parent;
          p := parentPos;
        } else {
          break;
        }
      }
      items[p] := item;
      assert items[..n] == s;
    }

    /** Choose the right child if it is <= the left child. */
    method ChooseChild(less: (QEntry, QEntry) -> bool, ghost s: seq<QEntry>, ghost pos: nat, left: nat) returns (child: nat)
      requires Valid() && left == 2 * pos + 1 < len == |s|
      requires forall k | left <= k < len :: items[k] == s[k]
      ensures child == UpperChild(less, s, pos)
    {
      child := left;
      if child + 1 < len {
        var lessThan := less(items[child], items[child + 1]);
        if !lessThan {
          child := child + 1;
        }
      }
    }

    method HeapSiftUp(less: (QEntry, QEntry) -> bool, pos: nat)
      requires Valid() && pos < len
      modifies items
      ensures items[..len] == SiftUp(less, old(items[..len]), pos)
      ensures forall k | len <= k < items.Length :: items[k] == old(items[k])
    {
      ghost var s := items[..len];
      ghost var goal := BubbleUp(less, s, pos);
      var startPos, endPos := pos, len;
      var p := pos;
      var item := items[p];
      var childPos := 2 * p + 1;
      while childPos < endPos
        invariant p < len == endPos == |s| && s[p] == item && childPos == 2 * p + 1
        invariant forall k | 0 <= k < len && k != p :: items[k] == s[k]
        invariant BubbleUp(less, s, p) == goal
        invariant forall k | len <= k < items.Length :: items[k] == old(items[k])
        decreases endPos - p
      {
        childPos := ChooseChild(less, s, p, childPos);
        s := Swap(s, p, childPos);
        items[p] := items[childPos];
        p := childPos;
        assert BubbleUp(less, s, p) == goal;
        childPos := 2 * p + 1;
      }
      items[p] := item;
      assert items[..len] == s;
      HeapSiftDown(less, len, startPos, p);
    }

    /** heappush: `ticks` is a small int, kept as a machine word. */
    method HeapPush(counter: IdCounter, ticks: int, callback: Object, args: Object) returns (r: Result<(), Exception>)
      requires Valid()
      modifies this`len, items, counter
      ensures Valid()
      ensures (Contents(), counter.next, r)
           == PushSpec(clock, items.Length, old(Contents()), old(counter.next), ticks, callback, args)
    {
      if len == items.Length {
        return Err(IndexError);
      }
      var l := len;
      var entry := QEntry(ticks % clock.word, counter.next, callback, args);
      items[l] := entry;
      counter.next := (counter.next + 1) % clock.word;
      assert items[..len + 1] == old(Contents()) + [entry];
      HeapSiftDown(LessThan(clock), len + 1, 0, len);
      len := len + 1;
      return Ok(());
    }

    /** heappop: the entry is stored in the caller's list, which must have room for three items. */
    method HeapPop(isList: bool, listLen: nat) returns (r: Result<(int, Object, Object), Exception>)
      requires Valid()
      modifies this`len, items
      ensures Valid()
      ensures (Contents(), r) == PopSpec(clock, old(Contents()), isList && listLen >= 3)
    {
      if len == 0 {
        return Err(IndexError);
      }
      if !isList || listLen < 3 {
        return Err(TypeError);
      }
      var item := items[0];
      ghost var s := items[..len];
      len := len - 1;
      items[0] := items[len];
      items[len] := items[len].(callback := Null, args := Null);
      assert items[..len] == s[0 := s[|s| - 1]][..|s| - 1];
      if len != 0 {
        HeapSiftUp(LessThan(clock), 0);
      }
      return Ok((item.time, item.callback, item.args));
    }

    method PeekTime() returns (r: Result<int, Exception>)
      requires Valid()
      ensures r == PeekSpec(Contents())
    {
      if len == 0 {
        return Err(IndexError);
      }
      return Ok(items[0].time);
    }
  }

  function PushSpec(c: Clock, alloc: nat, items: seq<QEntry>, next: int, ticks: int, callback: Object, args: Object)
    : (seq<QEntry>, int, Result<(), Exception>)
  {
    if |items| == alloc then
      (items, next, Err(IndexError))
    else
      var entry := QEntry(ticks % c.word, next, callback, args);
      (BinaryHeap.Push(LessThan(c), items, entry), (next + 1) % c.word, Ok(()))
  }

  function PopSpec(c: Clock, items: seq<QEntry>, room: bool)
    : (seq<QEntry>, Result<(int, Object, Object), Exception>)
  {
    if items == [] then
      (items, Err(IndexError))
    else if !room then
      (items, Err(TypeError))
    else
      (PopRest(LessThan(c), items), Ok((items[0].time, items[0].callback, items[0].args)))
  }

  function PeekSpec(items: seq<QEntry>): Result<int, Exception> {
    if items == [] then Err(IndexError) else Ok(items[0].time)
  }
}
