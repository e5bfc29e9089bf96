/** The sift loops that extmod/moduheapq.c and extmod/modutimeq.c share, as functions on sequences,
    and the proof that they build and keep a binary heap.

    `less` is the comparison the loops call. It need not be an order on every value of the type: all
    results ask only that it is a strict weak order on a set `u` that holds the elements of the heap. */
module BinaryHeap {

  // ---------- the order ----------

  ghost predicate StrictWeakOrder<T(!new)>(less: (T, T) -> bool, u: set<T>) {
    && (forall a, b | a in u && b in u && less(a, b) :: !less(b, a))
    && (forall a, b, c | a in u && b in u && c in u && !less(b, a) && !less(c, b) :: !less(c, a))
  }

  ghost predicate Within<T>(s: seq<T>, u: set<T>) {
    forall i | 0 <= i < |s| :: s[i] in u
  }

  ghost predicate Sorted<T>(less: (T, T) -> bool, s: seq<T>) {
    forall i, j | 0 <= i < j < |s| :: !less(s[j], s[i])
  }

  // ---------- the heap property ----------

  function Parent(pos: nat): nat
    requires pos > 0
  {
    (pos - 1) / 2
  }

  /** Every edge whose upper end is at or after `start` is in order. */
  ghost predicate HeapFrom<T>(less: (T, T) -> bool, s: seq<T>, start: nat) {
    forall i | 0 < i < |s| && start <= Parent(i) :: !less(s[i], s[Parent(i)])
  }

  ghost predicate IsHeap<T>(less: (T, T) -> bool, s: seq<T>) {
    HeapFrom(less, s, 0)
  }

  /** `pos` lies in the subtree rooted at `start`. */
  ghost predicate Descends(start: nat, pos: nat)
    decreases pos
  {
    pos == start || (pos > start && Descends(start, Parent(pos)))
  }

  lemma {:induction false} DescendsParent(start: nat, pos: nat)
    requires Descends(start, pos) && pos > start
    ensures start <= Parent(pos) && Descends(start, Parent(pos))
  {
  }

  lemma {:induction false} RootAboveAll(pos: nat)
    ensures Descends(0, pos)
    decreases pos
  {
    if pos > 0 {
      RootAboveAll(Parent(pos));
    }
  }

  // ---------- heap_siftdown ----------

  function Swap<T>(s: seq<T>, i: nat, j: nat): (r: seq<T>)
    requires i < |s| && j < |s|
    ensures |r| == |s|
  {
    s[i := s[j]][j := s[i]]
  }

  lemma SwapPermutes<T>(s: seq<T>, i: nat, j: nat)
    requires i < |s| && j < |s|
    ensures multiset(Swap(s, i, j)) == multiset(s)
  {
  }

  /** Move the item at `pos` towards the root, but not above `start`, while it is less than its parent. */
  function SiftDown<T>(less: (T, T) -> bool, s: seq<T>, start: nat, pos: nat): (r: seq<T>)
    requires pos < |s|
    ensures |r| == |s|
    decreases pos
  {
    if pos > start && less(s[pos], s[Parent(pos)]) then
      SiftDown(less, Swap(s, pos, Parent(pos)), start, Parent(pos))
    else
      s
  }

  lemma {:induction false} SiftDownPermutes<T>(less: (T, T) -> bool, s: seq<T>, start: nat, pos: nat)
    requires pos < |s|
    ensures multiset(SiftDown(less, s, start, pos)) == multiset(s)
    decreases pos
  {
    if pos > start && less(s[pos], s[Parent(pos)]) {
      SwapPermutes(s, pos, Parent(pos));
      SiftDownPermutes(less, Swap(s, pos, Parent(pos)), start, Parent(pos));
    }
  }

  /** All edges below `start` are in order, except perhaps the one that leads up from `pos`. */
  ghost predicate HeapExceptUp<T>(less: (T, T) -> bool, s: seq<T>, start: nat, pos: nat) {
    && (forall i | 0 < i < |s| && start <= Parent(i) && i != pos :: !less(s[i], s[Parent(i)]))
    && (pos > start ==> forall i | 0 < i < |s| && Parent(i) == pos && pos < |s| :: !less(s[i], s[Parent(pos)]))
  }

  lemma {:induction false} SiftDownMakesHeap<T(!new)>(less: (T, T) -> bool, u: set<T>, s: seq<T>, start: nat, pos: nat)
    requires pos < |s| && Descends(start, pos)
    requires StrictWeakOrder(less, u) && Within(s, u)
    requires HeapExceptUp(less, s, start, pos)
    ensures HeapFrom(less, SiftDown(less, s, start, pos), start)
    decreases pos
  {
    if pos > start && less(s[pos], s[Parent(pos)]) {
      var p := Parent(pos);
      var t := Swap(s, pos, p);
      DescendsParent(start, pos);
      assert Within(t, u);
      assert HeapExceptUp(less, t, start, p) by {
        forall i | 0 < i < |t| && start <= Parent(i) && i != p
          ensures !less(t[i], t[Parent(i)])
        {
          if i != pos && Parent(i) == p {
            assert !less(s[i], s[p]) && !less(s[p], s[pos]);
          }
        }
        if p > start {
          DescendsParent(start, p);
          forall i | 0 < i < |t| && Parent(i) == p
            ensures !less(t[i], t[Parent(p)])
          {
            assert !less(s[p], s[Parent(p)]);
          }
        }
      }
      SiftDownMakesHeap(less, u, t, start, p);
    }
  }

  // ---------- heap_siftup ----------

  /** The child that moves up: the right one, unless the left one is less. */
  function UpperChild<T>(less: (T, T) -> bool, s: seq<T>, pos: nat): (c: nat)
    requires 2 * pos + 1 < |s|
    ensures pos < c < |s| && Parent(c) == pos
  {
    if 2 * pos + 2 < |s| && !less(s[2 * pos + 1], s[2 * pos + 2]) then 2 * pos + 2 else 2 * pos + 1
  }

  /** Let the smaller children move up until the item of `pos` is at a leaf. */
  function BubbleUp<T>(less: (T, T) -> bool, s: seq<T>, pos: nat): (r: (seq<T>, nat))
    requires pos < |s|
    ensures |r.0| == |s| && pos <= r.1 < |s|
    decreases |s| - pos
  {
    if 2 * pos + 1 < |s| then
      var c := UpperChild(less, s, pos);
      BubbleUp(less, Swap(s, pos, c), c)
    else
      (s, pos)
  }

  function SiftUp<T>(less: (T, T) -> bool, s: seq<T>, pos: nat): (r: seq<T>)
    requires pos < |s|
    ensures |r| == |s|
  {
    var (t, leaf) := BubbleUp(less, s, pos);
    SiftDown(less, t, pos, leaf)
  }

  lemma {:induction false} BubbleUpPermutes<T>(less: (T, T) -> bool, s: seq<T>, pos: nat)
    requires pos < |s|
    ensures multiset(BubbleUp(less, s, pos).0) == multiset(s)
    decreases |s| - pos
  {
    if 2 * pos + 1 < |s| {
      var c := UpperChild(less, s, pos);
      SwapPermutes(s, pos, c);
      BubbleUpPermutes(less, Swap(s, pos, c), c);
    }
  }

  lemma SiftUpPermutes<T>(less: (T, T) -> bool, s: seq<T>, pos: nat)
    requires pos < |s|
    ensures multiset(SiftUp(less, s, pos)) == multiset(s)
  {
    var (t, leaf) := BubbleUp(less, s, pos);
    BubbleUpPermutes(less, s, pos);
    SiftDownPermutes(less, t, pos, leaf);
  }

  /** All edges below `start` are in order, except perhaps those that touch `pos`. */
  ghost predicate HeapExceptAt<T>(less: (T, T) -> bool, s: seq<T>, start: nat, pos: nat) {
    && (forall i | 0 < i < |s| && start <= Parent(i) && i != pos && Parent(i) != pos :: !less(s[i], s[Parent(i)]))
    && (pos > start ==> forall i | 0 < i < |s| && Parent(i) == pos && pos < |s| :: !less(s[i], s[Parent(pos)]))
  }

  lemma {:induction false} BubbleUpKeepsRest<T(!new)>(less: (T, T) -> bool, u: set<T>, s: seq<T>, start: nat, pos: nat)
    requires pos < |s| && Descends(start, pos)
    requires StrictWeakOrder(less, u) && Within(s, u)
    requires HeapExceptAt(less, s, start, pos)
    ensures var (t, leaf) := BubbleUp(less, s, pos);
            Descends(start, leaf) && Within(t, u) && HeapExceptUp(less, t, start, leaf)
    decreases |s| - pos
  {
    if 2 * pos + 1 < |s| {
      var c := UpperChild(less, s, pos);
      SwapKeepsRest(less, u, s, start, pos, c);
      BubbleUpKeepsRest(less, u, Swap(s, pos, c), start, c);
    }
  }

  lemma SwapKeepsRest<T(!new)>(less: (T, T) -> bool, u: set<T>, s: seq<T>, start: nat, pos: nat, c: nat)
    requires 2 * pos + 1 < |s| && c == UpperChild(less, s, pos) && Descends(start, pos)
    requires StrictWeakOrder(less, u) && Within(s, u)
    requires HeapExceptAt(less, s, start, pos)
    ensures var t := Swap(s, pos, c); Descends(start, c) && Within(t, u) && HeapExceptAt(less, t, start, c)
  {
    var t := Swap(s, pos, c);
    forall i | 0 < i < |t| && start <= Parent(i) && i != c && Parent(i) != c
      ensures !less(t[i], t[Parent(i)])
    {
      SwappedEdge(less, u, s, start, pos, c, i);
    }
  }

  lemma SwappedEdge<T(!new)>(less: (T, T) -> bool, u: set<T>, s: seq<T>, start: nat, pos: nat, c: nat, i: nat)
    requires 2 * pos + 1 < |s| && c == UpperChild(less, s, pos)
    requires StrictWeakOrder(less, u) && Within(s, u)
    requires HeapExceptAt(less, s, start, pos)
    requires 0 < i < |s| && start <= Parent(i) && i != c && Parent(i) != c
    ensures var t := Swap(s, pos, c); !less(t[i], t[Parent(i)])
  {
    if Parent(i) == pos {
      assert {i, c} == {2 * pos + 1, 2 * pos + 2};
    }
  }

  /** The step of heapify and of pop: if both subtrees of `pos` are heaps, sifting the item of `pos`
      to a leaf and back makes the whole subtree a heap. */
  lemma {:induction false} SiftUpMakesHeap<T(!new)>(less: (T, T) -> bool, u: set<T>, s: seq<T>, pos: nat)
    requires pos < |s|
    requires StrictWeakOrder(less, u) && Within(s, u)
    requires HeapFrom(less, s, pos + 1)
    ensures HeapFrom(less, SiftUp(less, s, pos), pos)
  {
    var (t, leaf) := BubbleUp(less, s, pos);
    BubbleUpKeepsRest(less, u, s, pos, pos);
    SiftDownMakesHeap(less, u, t, pos, leaf);
  }

  // ---------- push, pop, heapify ----------

  function Push<T>(less: (T, T) -> bool, s: seq<T>, x: T): seq<T> {
    SiftDown(less, s + [x], 0, |s|)
  }

  function PopRest<T>(less: (T, T) -> bool, s: seq<T>): (r: seq<T>)
    requires s != []
    ensures |r| == |s| - 1
  {
    if |s| == 1 then [] else SiftUp(less, LastToRoot(s), 0)
  }

  /** The items behind the root, the last of them in its place. */
  function LastToRoot<T>(s: seq<T>): (t: seq<T>)
    requires |s| > 1
    ensures |t| == |s| - 1 && t[0] == s[|s| - 1] && forall i | 0 < i < |t| :: t[i] == s[i]
  {
    s[0 := s[|s| - 1]][..|s| - 1]
  }

  function HeapifyBelow<T>(less: (T, T) -> bool, s: seq<T>, i: nat): (r: seq<T>)
    requires i <= |s|
    ensures |r| == |s|
    decreases i
  {
    if i == 0 then s else HeapifyBelow(less, SiftUp(less, s, i - 1), i - 1)
  }

  function Heapify<T>(less: (T, T) -> bool, s: seq<T>): seq<T> {
    HeapifyBelow(less, s, |s| / 2)
  }

  function PopAll<T>(less: (T, T) -> bool, s: seq<T>): seq<T>
    decreases |s|
  {
    if s == [] then [] else [s[0]] + PopAll(less, PopRest(less, s))
  }

  lemma SameElements<T>(s: seq<T>, t: seq<T>, u: set<T>)
    requires multiset(s) == multiset(t) && Within(s, u)
    ensures Within(t, u)
  {
    forall i | 0 <= i < |t| ensures t[i] in u {
      assert t[i] in multiset(s);
    }
  }

  /** Push keeps the heap and adds exactly the pushed item. */
  lemma PushKeepsHeap<T(!new)>(less: (T, T) -> bool, u: set<T>, s: seq<T>, x: T)
    requires StrictWeakOrder(less, u) && Within(s, u) && x in u && IsHeap(less, s)
    ensures IsHeap(less, Push(less, s, x))
    ensures multiset(Push(less, s, x)) == multiset(s) + multiset{x}
  {
    RootAboveAll(|s|);
    SiftDownMakesHeap(less, u, s + [x], 0, |s|);
    SiftDownPermutes(less, s + [x], 0, |s|);
  }

  /** The root is not greater than any element. */
  lemma {:induction false} RootIsLeast<T(!new)>(less: (T, T) -> bool, u: set<T>, s: seq<T>, i: nat)
    requires StrictWeakOrder(less, u) && Within(s, u) && IsHeap(less, s) && i < |s|
    ensures !less(s[i], s[0])
    decreases i
  {
    if i == 0 {
    } else {
      RootIsLeast(less, u, s, Parent(i));
    }
  }

  /** Pop takes out the root, nothing else, and keeps the heap. */
  lemma PopKeepsHeap<T(!new)>(less: (T, T) -> bool, u: set<T>, s: seq<T>)
    requires StrictWeakOrder(less, u) && Within(s, u) && IsHeap(less, s) && s != []
    ensures IsHeap(less, PopRest(less, s))
    ensures multiset(s) == multiset{s[0]} + multiset(PopRest(less, s))
    ensures forall x | x in multiset(s) :: !less(x, s[0])
  {
    PopPermutes(less, s);
    if |s| > 1 {
      SiftUpMakesHeap(less, u, LastToRoot(s), 0);
    }
    forall x | x in multiset(s) ensures !less(x, s[0]) {
      var i: nat :| i < |s| && s[i] == x;
      RootIsLeast(less, u, s, i);
    }
  }

  lemma PopPermutes<T>(less: (T, T) -> bool, s: seq<T>)
    requires s != []
    ensures multiset(s) == multiset{s[0]} + multiset(PopRest(less, s))
  {
    var n := |s| - 1;
    assert s == [s[0]] + s[1..];
    if n > 0 {
      assert LastToRoot(s) == [s[n]] + s[1..n];
      assert s[1..] == s[1..n] + [s[n]];
      SiftUpPermutes(less, LastToRoot(s), 0);
    }
  }

  lemma {:induction false} HeapifyBelowPermutes<T>(less: (T, T) -> bool, s: seq<T>, i: nat)
    requires i <= |s|
    ensures multiset(HeapifyBelow(less, s, i)) == multiset(s)
    decreases i
  {
    if i > 0 {
      SiftUpPermutes(less, s, i - 1);
      HeapifyBelowPermutes(less, SiftUp(less, s, i - 1), i - 1);
    }
  }

  /** Sifting an item whose subtrees are heaps makes a heap. */
  ghost predicate SiftUpWorks<T(!new)>(less: (T, T) -> bool, u: set<T>) {
    forall s, i: nat {:trigger SiftUp(less, s, i)} | i < |s| && Within(s, u) && HeapFrom(less, s, i + 1) ::
      HeapFrom(less, SiftUp(less, s, i), i) && Within(SiftUp(less, s, i), u)
  }

  lemma OrderMakesSiftUpWork<T(!new)>(less: (T, T) -> bool, u: set<T>)
    requires StrictWeakOrder(less, u)
    ensures SiftUpWorks(less, u)
  {
    forall s: seq<T>, i: nat | i < |s| && Within(s, u) && HeapFrom(less, s, i + 1)
      ensures HeapFrom(less, SiftUp(less, s, i), i) && Within(SiftUp(less, s, i), u)
    {
      SiftUpMakesHeap(less, u, s, i);
      SiftUpPermutes(less, s, i);
      SameElements(s, SiftUp(less, s, i), u);
    }
  }

  lemma {:induction false} HeapifyBelowMakesHeap<T(!new)>(less: (T, T) -> bool, u: set<T>, s: seq<T>, i: nat)
    requires SiftUpWorks(less, u) && Within(s, u) && i <= |s| && HeapFrom(less, s, i)
    ensures HeapFrom(less, HeapifyBelow(less, s, i), 0)
    decreases i
  {
    if i > 0 {
      HeapifyBelowMakesHeap(less, u, SiftUp(less, s, i - 1), i - 1);
    }
  }

  /** Bottom-up heapify turns every list into a heap of the same elements. */
  lemma HeapifyMakesHeap<T(!new)>(less: (T, T) -> bool, u: set<T>, s: seq<T>)
    requires StrictWeakOrder(less, u) && Within(s, u)
    ensures IsHeap(less, Heapify(less, s))
    ensures multiset(Heapify(less, s)) == multiset(s)
  {
    OrderMakesSiftUpWork(less, u);
    HeapifyBelowMakesHeap(less, u, s, |s| / 2);
    HeapifyBelowPermutes(less, s, |s| / 2);
  }

  lemma WithinParts<T>(s: seq<T>, rest: seq<T>, x: T, u: set<T>)
    requires Within(s, u) && multiset(s) == multiset{x} + multiset(rest)
    ensures Within(rest, u)
  {
    forall i | 0 <= i < |rest| ensures rest[i] in u {
      assert rest[i] in multiset(s);
    }
  }

  lemma SortedCons<T>(less: (T, T) -> bool, x: T, tail: seq<T>, all: multiset<T>)
    requires Sorted(less, tail) && all == multiset{x} + multiset(tail)
    requires forall y | y in all :: !less(y, x)
    ensures Sorted(less, [x] + tail) && multiset([x] + tail) == all
  {
    forall j | 0 <= j < |tail| ensures !less(tail[j], x) {
      assert tail[j] in all;
    }
  }

  /** Popping a heap until it is empty yields its elements in order. */
  lemma {:induction false} PopAllSorts<T(!new)>(less: (T, T) -> bool, u: set<T>, s: seq<T>)
    requires StrictWeakOrder(less, u) && Within(s, u) && IsHeap(less, s)
    ensures Sorted(less, PopAll(less, s))
    ensures multiset(PopAll(less, s)) == multiset(s)
    decreases |s|
  {
    if s == [] {
    } else {
      var rest := PopRest(less, s);
      PopKeepsHeap(less, u, s);
      WithinParts(s, rest, s[0], u);
      PopAllSorts(less, u, rest);
      SortedCons(less, s[0], PopAll(less, rest), multiset(s));
    }
  }

  /** heapify followed by |s| pops is a sort: a sorted permutation of any list. */
  lemma HeapSort<T(!new)>(less: (T, T) -> bool, s: seq<T>)
    requires StrictWeakOrder(less, set x | x in s)
    ensures Sorted(less, PopAll(less, Heapify(less, s)))
    ensures multiset(PopAll(less, Heapify(less, s))) == multiset(s)
  {
    var u := set x | x in s;
    HeapifyMakesHeap(less, u, s);
    SameElements(s, Heapify(less, s), u);
    PopAllSorts(less, u, Heapify(less, s));
  }
}
