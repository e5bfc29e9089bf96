/** extmod/moduheapq.c: heapq on a mutable list. */
module UHeapq {
  import opened BinaryHeap
  import opened Wrappers

  datatype Exception = IndexError

  /** A Python list; the heap functions overwrite its items in place. `less` stands for the `<` of its
      items (mp_binary_op with MP_BINARY_OP_LESS). */
  class HeapList<T> {
    var items: seq<T>
    const less: (T, T) -> bool

    constructor (less: (T, T) -> bool, items: seq<T>)
      ensures this.less == less && this.items == items
    {
      this.less := less;
      this.items := items;
    }

    method HeapSiftDown(startPos: nat, pos: nat)
      requires pos < |items|
      modifies this`items
      ensures items == SiftDown(less, old(items), startPos, pos)
    {
      var p := pos;
      var item := items[p];
      assert items[p := item] == items;
      while p > startPos
        invariant p < |items|
        invariant SiftDown(less, items[p := item], startPos, p) == SiftDown(less, old(items), startPos, pos)
      {
        var parentPos := (p - 1) / 2;
        var parent := items[parentPos];
        if less(item, parent) {
          assert items[p := parent][parentPos := item] == Swap(items[p := item], p, parentPos);
          items := items[p := parent];
          p := parentPos;
        } else {
          break;
        }
      }
      items := items[p := item];
    }

    method HeapSiftUp(pos: nat)
      requires pos < |items|
      modifies this`items
      ensures items == SiftUp(less, old(items), pos)
    {
      var startPos, endPos := pos, |items|;
      var p := pos;
      var item := items[p];
      assert items[p := item] == items;
      var childPos := 2 * p + 1;
      while childPos < endPos
        invariant p < |items| == endPos && childPos == 2 * p + 1
        invariant BubbleUp(less, items[p := item], p) == BubbleUp(less, old(items), pos)
        decreases endPos - p
      {
        if childPos + 1 < endPos && !less(items[childPos], items[childPos + 1]) {
          childPos := childPos + 1;
        }
        assert childPos == UpperChild(less, items[p := item], p);
        assert items[p := items[childPos]][childPos := item] == Swap(items[p := item], p, childPos);
        items := items[p := items[childPos]];
        p := childPos;
        childPos := 2 * p + 1;
      }
      items := items[p := item];
      HeapSiftDown(startPos, p);
    }

    method HeapPush(item: T)
      modifies this`items
      ensures items == Push(less, old(items), item)
    {
      items := items + [item];
      HeapSiftDown(0, |items| - 1);
    }

    method HeapPop() returns (r: Result<T, Exception>)
      modifies this`items
      ensures old(items) == [] ==> r == Err(IndexError) && items == []
      ensures old(items) != [] ==> r == Ok(old(items)[0]) && items == PopRest(less, old(items))
    {
      if |items| == 0 {
        return Err(IndexError);
      }
      var item := items[0];
      var len := |items| - 1;
      items := items[0 := items[len]][..len];
      if |items| != 0 {
        HeapSiftUp(0);
      }
      return Ok(item);
    }

    method HeapifyList()
      modifies this`items
      ensures items == Heapify(less, old(items))
    {
      ghost var goal := Heapify(less, items);
      var i: nat := |items| / 2;
      while i > 0
        invariant i <= |items|
        invariant HeapifyBelow(less, items, i) == goal
      {
        i := i - 1;
        HeapSiftUp(i);
        assert HeapifyBelow(less, items, i) == goal;
      }
    }
  }

  /** A heap sort written with the three functions: what they are for, on every list. */
  method HeapSorted<T(!new)>(less: (T, T) -> bool, items: seq<T>) returns (sorted: seq<T>)
    requires StrictWeakOrder(less, set x | x in items)
    ensures Sorted(less, sorted) && multiset(sorted) == multiset(items)
  {
    HeapSort(less, items);
    ghost var goal := PopAll(less, Heapify(less, items));
    var heap := new HeapList(less, items);
    heap.HeapifyList();
    sorted := [];
    while |heap.items| > 0
      invariant heap.less == less
      invariant sorted + PopAll(less, heap.items) == goal
      decreases |heap.items|
    {
      ghost var before := heap.items;
      var r := heap.HeapPop();
      PopAllStep(less, sorted, before);
      sorted := sorted + [r.value];
    }
    assert sorted + [] == sorted;
  }

  lemma PopAllStep<T>(less: (T, T) -> bool, done: seq<T>, s: seq<T>)
    requires s != []
    ensures done + PopAll(less, s) == (done + [s[0]]) + PopAll(less, PopRest(less, s))
  {
  }
}
