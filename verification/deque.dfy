/** The doubly-linked deque of rust101 part 16, built from raw pointers.

    The heap is explicit: `heap` maps the address of every live node to the
    node, and `Ptr` is an address or the null pointer (`None`). `order`
    lists the live addresses from head to tail; it is the abstraction the
    invariant `Valid` ties the raw `next`/`prev` links to. `free` is an
    address never used yet, where `Box::new` places the next node. Popping
    a node frees it (the Rust code turns it back into a `Box` that is
    dropped), so it leaves `heap`. */
module Deque {
  import opened Base

  /** A node address, or null. */
  type Ptr = Option<nat>

  datatype Node<T> = Node(data: T, next: Ptr, prev: Ptr)

  datatype List<T> = List(head: Ptr, tail: Ptr, heap: map<nat, Node<T>>, order: seq<nat>, free: nat)

  /** The address of position i, or null past either end. */
  function PtrAt<T>(l: List<T>, i: int): Ptr
  {
    if 0 <= i < |l.order| then Some(l.order[i]) else None
  }

  /** The representation invariant: `order` lists distinct live nodes,
      `free` is above every allocated address, `head` and `tail` are the
      two ends, and each node's `next` and `prev` point at its neighbours
      in `order` (null at the ends). */
  ghost predicate Valid<T>(l: List<T>)
  {
    && (forall i, j :: 0 <= i < j < |l.order| ==> l.order[i] != l.order[j])
    && (forall i :: 0 <= i < |l.order| ==> l.order[i] in l.heap)
    && (forall a :: a in l.heap ==> a < l.free)
    && l.head == PtrAt(l, 0)
    && l.tail == PtrAt(l, |l.order| - 1)
    && (forall i {:trigger l.heap[l.order[i]]} :: 0 <= i < |l.order| ==> l.heap[l.order[i]].next == PtrAt(l, i + 1))
    && (forall i {:trigger l.heap[l.order[i]]} :: 0 <= i < |l.order| ==> l.heap[l.order[i]].prev == PtrAt(l, i - 1))
  }

  /** The values from head to tail. */
  function Contents<T>(l: List<T>): (s: seq<T>)
    requires Valid(l)
    ensures |s| == |l.order|
  {
    Values(l.heap, l.order)
  }

  /** The data of the nodes at the given addresses. */
  function Values<T>(heap: map<nat, Node<T>>, order: seq<nat>): (s: seq<T>)
    requires forall i :: 0 <= i < |order| ==> order[i] in heap
    ensures |s| == |order|
  {
    seq(|order|, i requires 0 <= i < |order| => heap[order[i]].data)
  }

  /** `List::new`. */
  function New<T>(): (l: List<T>)
    ensures Valid(l) && Contents(l) == []
  {
    List(None, None, map[], [], 0)
  }

  /** `List::push_front`: the new node's `next` is the old head, whose
      `prev` now points back at the new node; an empty list's `tail`
      becomes the new node too. */
  function PushFront<T>(l: List<T>, t: T): List<T>
    requires Valid(l)
  {
    var addr := l.free;
    var node := Node(t, l.head, None);
    var heap := if l.head.None? then l.heap
                else l.heap[l.head.value := l.heap[l.head.value].(prev := Some(addr))];
    var tail := if l.head.None? then Some(addr) else l.tail;
    List(Some(addr), tail, heap[addr := node], [addr] + l.order, l.free + 1)
  }

  /** `List::push_back`: the mirror image of `push_front`. */
  function PushBack<T>(l: List<T>, t: T): List<T>
    requires Valid(l)
  {
    var addr := l.free;
    var node := Node(t, None, l.tail);
    var heap := if l.tail.None? then l.heap
                else l.heap[l.tail.value := l.heap[l.tail.value].(next := Some(addr))];
    var head := if l.tail.None? then Some(addr) else l.head;
    List(head, Some(addr), heap[addr := node], l.order + [addr], l.free + 1)
  }

  /** `List::pop_front`: the head value, and the list whose head is the old
      head's `next` (with its `prev` nulled); `tail` is nulled when the
      head was also the tail. An empty list gives `None`. */
  function PopFront<T>(l: List<T>): (Option<T>, List<T>)
    requires Valid(l)
  {
    if l.head.None? then (None, l)
    else
      var h := l.head.value;
      var b := l.heap[h];
      var tail := if l.head == l.tail then None else l.tail;
      var head := b.next;
      var heap := l.heap - {h};
      var heap' := if head.Some? && head.value in heap
                   then heap[head.value := heap[head.value].(prev := None)] else heap;
      (Some(b.data), List(head, tail, heap', l.order[1..], l.free))
  }

  /** `List::pop_back`: the mirror image of `pop_front`. */
  function PopBack<T>(l: List<T>): (Option<T>, List<T>)
    requires Valid(l)
  {
    if l.tail.None? then (None, l)
    else
      var t := l.tail.value;
      var b := l.heap[t];
      var head := if l.head == l.tail then None else l.head;
      var tail := b.prev;
      var heap := l.heap - {t};
      var heap' := if tail.Some? && tail.value in heap
                   then heap[tail.value := heap[tail.value].(next := None)] else heap;
      (Some(b.data), List(head, tail, heap', l.order[..|l.order| - 1], l.free))
  }

  // ---------------------------------------------------------------------
  // push_front

  /** What `push_front(t)` does to the representation, address by address:
      a fresh node at `free` goes in front, and the old head's `prev` now
      points at it. */
  ghost predicate PushedFront<T>(l: List<T>, r: List<T>, t: T)
  {
    && r.order == [l.free] + l.order
    && r.free == l.free + 1
    && r.head == Some(l.free)
    && r.tail == (if |l.order| == 0 then Some(l.free) else l.tail)
    && (forall y :: y in r.heap <==> y in l.heap || y == l.free)
    && r.heap[l.free] == Node(t, PtrAt(l, 0), None)
    && (forall y :: y in l.heap && y != l.free ==>
          r.heap[y] == if PtrAt(l, 0) == Some(y) then l.heap[y].(prev := Some(l.free)) else l.heap[y])
  }

  lemma PushFrontShape<T>(l: List<T>, t: T)
    requires Valid(l)
    ensures PushedFront(l, PushFront(l, t), t)
  {
    assert l.free !in l.heap;
  }

  /** `push_front(t)` turns contents s into [t] + s and keeps the
      representation valid. */
  lemma PushFrontCorrect<T>(l: List<T>, t: T)
    requires Valid(l)
    ensures var r := PushFront(l, t); Valid(r) && Contents(r) == [t] + Contents(l)
  {
    var r := PushFront(l, t);
    PushFrontShape(l, t);
    PushedFrontValid(l, r, t);
    PushedFrontValues(l, r, t);
  }

  lemma PushedFrontValid<T>(l: List<T>, r: List<T>, t: T)
    requires Valid(l) && PushedFront(l, r, t)
    ensures Valid(r)
  {
    PushedFrontDistinct(l, r, t);
    PushedFrontNext(l, r, t);
    PushedFrontPrev(l, r, t);
    assert r.head == PtrAt(r, 0);
    assert r.tail == PtrAt(r, |r.order| - 1);
  }

  lemma PushedFrontDistinct<T>(l: List<T>, r: List<T>, t: T)
    requires Valid(l) && PushedFront(l, r, t)
    ensures forall i, j :: 0 <= i < j < |r.order| ==> r.order[i] != r.order[j]
  {
    assert l.free !in l.order;
  }

  lemma PushedFrontNext<T>(l: List<T>, r: List<T>, t: T)
    requires Valid(l) && PushedFront(l, r, t)
    ensures forall i :: 0 <= i < |r.order| ==> r.order[i] in r.heap && r.heap[r.order[i]].next == PtrAt(r, i + 1)
  {
    forall i | 0 <= i < |r.order|
      ensures r.order[i] in r.heap && r.heap[r.order[i]].next == PtrAt(r, i + 1)
    {
      assert PtrAt(r, i + 1) == PtrAt(l, i);
      if i > 0 {
        var x := l.order[i - 1];
        assert r.order[i] == x;
        assert l.heap[x].next == PtrAt(l, i);
      }
    }
  }

  lemma PushedFrontPrev<T>(l: List<T>, r: List<T>, t: T)
    requires Valid(l) && PushedFront(l, r, t)
    ensures forall i :: 0 <= i < |r.order| ==> r.order[i] in r.heap && r.heap[r.order[i]].prev == PtrAt(r, i - 1)
  {
    forall i | 0 <= i < |r.order|
      ensures r.order[i] in r.heap && r.heap[r.order[i]].prev == PtrAt(r, i - 1)
    {
      if i > 1 {
        var x := l.order[i - 1];
        assert r.order[i] == x;
        assert PtrAt(l, 0) != Some(x);
        assert l.heap[x].prev == PtrAt(r, i - 1);
      }
    }
  }

  lemma PushedFrontValues<T>(l: List<T>, r: List<T>, t: T)
    requires Valid(l) && PushedFront(l, r, t)
    ensures forall i :: 0 <= i < |r.order| ==> r.order[i] in r.heap
    ensures Values(r.heap, r.order) == [t] + Values(l.heap, l.order)
  {
    forall i | 0 <= i < |r.order|
      ensures r.order[i] in r.heap
      ensures Values(r.heap, r.order)[i] == ([t] + Values(l.heap, l.order))[i]
    {
      if i > 0 {
        var x := l.order[i - 1];
        assert r.order[i] == x;
        assert r.heap[x].data == l.heap[x].data;
      }
    }
  }


  // ---------------------------------------------------------------------
  // push_back

  /** What `push_back(t)` does to the representation: a fresh node at
      `free` goes last, and the old tail's `next` now points at it. */
  ghost predicate PushedBack<T>(l: List<T>, r: List<T>, t: T)
  {
    && r.order == l.order + [l.free]
    && r.free == l.free + 1
    && r.head == (if |l.order| == 0 then Some(l.free) else l.head)
    && r.tail == Some(l.free)
    && (forall y :: y in r.heap <==> y in l.heap || y == l.free)
    && r.heap[l.free] == Node(t, None, PtrAt(l, |l.order| - 1))
    && (forall y :: y in l.heap && y != l.free ==>
          r.heap[y] == if PtrAt(l, |l.order| - 1) == Some(y) then l.heap[y].(next := Some(l.free)) else l.heap[y])
  }

  lemma PushBackShape<T>(l: List<T>, t: T)
    requires Valid(l)
    ensures PushedBack(l, PushBack(l, t), t)
  {
    assert l.free !in l.heap;
  }

  /** `push_back(t)` turns contents s into s + [t] and keeps the
      representation valid. */
  lemma PushBackCorrect<T>(l: List<T>, t: T)
    requires Valid(l)
    ensures var r := PushBack(l, t); Valid(r) && Contents(r) == Contents(l) + [t]
  {
    var r := PushBack(l, t);
    PushBackShape(l, t);
    PushedBackValid(l, r, t);
    PushedBackValues(l, r, t);
  }

  lemma PushedBackValid<T>(l: List<T>, r: List<T>, t: T)
    requires Valid(l) && PushedBack(l, r, t)
    ensures Valid(r)
  {
    PushedBackDistinct(l, r, t);
    PushedBackNext(l, r, t);
    PushedBackPrev(l, r, t);
    assert r.head == PtrAt(r, 0);
    assert r.tail == PtrAt(r, |r.order| - 1);
  }

  lemma PushedBackDistinct<T>(l: List<T>, r: List<T>, t: T)
    requires Valid(l) && PushedBack(l, r, t)
    ensures forall i, j :: 0 <= i < j < |r.order| ==> r.order[i] != r.order[j]
  {
    assert l.free !in l.order;
  }

  lemma PushedBackNext<T>(l: List<T>, r: List<T>, t: T)
    requires Valid(l) && PushedBack(l, r, t)
    ensures forall i :: 0 <= i < |r.order| ==> r.order[i] in r.heap && r.heap[r.order[i]].next == PtrAt(r, i + 1)
  {
    var n := |l.order|;
    forall i | 0 <= i < |r.order|
      ensures r.order[i] in r.heap && r.heap[r.order[i]].next == PtrAt(r, i + 1)
    {
      if i < n - 1 {
        var x := l.order[i];
        assert r.order[i] == x;
        assert PtrAt(l, n - 1) != Some(x);
        assert PtrAt(r, i + 1) == PtrAt(l, i + 1);
        assert l.heap[x].next == PtrAt(l, i + 1);
      }
    }
  }

  lemma PushedBackPrev<T>(l: List<T>, r: List<T>, t: T)
    requires Valid(l) && PushedBack(l, r, t)
    ensures forall i :: 0 <= i < |r.order| ==> r.order[i] in r.heap && r.heap[r.order[i]].prev == PtrAt(r, i - 1)
  {
    var n := |l.order|;
    forall i | 0 <= i < |r.order|
      ensures r.order[i] in r.heap && r.heap[r.order[i]].prev == PtrAt(r, i - 1)
    {
      if i < n {
        var x := l.order[i];
        assert r.order[i] == x;
        assert PtrAt(r, i - 1) == PtrAt(l, i - 1);
        assert l.heap[x].prev == PtrAt(l, i - 1);
      } else {
        assert r.order[i] == l.free;
        assert PtrAt(r, i - 1) == PtrAt(l, n - 1);
      }
    }
  }

  lemma PushedBackValues<T>(l: List<T>, r: List<T>, t: T)
    requires Valid(l) && PushedBack(l, r, t)
    ensures forall i :: 0 <= i < |r.order| ==> r.order[i] in r.heap
    ensures Values(r.heap, r.order) == Values(l.heap, l.order) + [t]
  {
    var n := |l.order|;
    forall i | 0 <= i < |r.order|
      ensures r.order[i] in r.heap
      ensures Values(r.heap, r.order)[i] == (Values(l.heap, l.order) + [t])[i]
    {
      if i < n {
        var x := l.order[i];
        assert r.order[i] == x;
        assert r.heap[x].data == l.heap[x].data;
      }
    }
  }

  // ---------------------------------------------------------------------
  // pop_front

  /** What `pop_front` does to a non-empty representation: the head node
      leaves the heap and the new head's `prev` is nulled. */
  ghost predicate PoppedFront<T>(l: List<T>, r: List<T>)
  {
    && |l.order| > 0
    && r.order == l.order[1..]
    && r.free == l.free
    && r.head == PtrAt(l, 1)
    && r.tail == (if |l.order| == 1 then None else l.tail)
    && (forall y :: y in r.heap <==> y in l.heap && y != l.order[0])
    && (forall y :: y in r.heap ==>
          r.heap[y] == if PtrAt(l, 1) == Some(y) then l.heap[y].(prev := None) else l.heap[y])
  }

  lemma PopFrontShape<T>(l: List<T>)
    requires Valid(l) && |l.order| > 0
    ensures PoppedFront(l, PopFront(l).1)
    ensures PopFront(l).0 == Some(l.heap[l.order[0]].data)
  {
    assert l.heap[l.order[0]].next == PtrAt(l, 1);
    if |l.order| > 1 {
      assert l.order[1] != l.order[0];
    }
  }

  /** `pop_front` on an empty list returns `None` and leaves the list
      alone; otherwise it returns the first value and removes exactly it,
      keeping the representation valid. */
  lemma PopFrontCorrect<T>(l: List<T>)
    requires Valid(l)
    ensures var (x, r) := PopFront(l);
      && Valid(r)
      && (|Contents(l)| == 0 ==> x.None? && r == l)
      && (|Contents(l)| > 0 ==> x == Some(Contents(l)[0]) && Contents(r) == Contents(l)[1..])
  {
    if |l.order| > 0 {
      var r := PopFront(l).1;
      PopFrontShape(l);
      PoppedFrontValid(l, r);
      PoppedFrontValues(l, r);
    }
  }

  lemma PoppedFrontValid<T>(l: List<T>, r: List<T>)
    requires Valid(l) && PoppedFront(l, r)
    ensures Valid(r)
  {
    PoppedFrontDistinct(l, r);
    PoppedFrontNext(l, r);
    PoppedFrontPrev(l, r);
    assert r.head == PtrAt(r, 0);
    assert r.tail == PtrAt(r, |r.order| - 1);
  }

  lemma PoppedFrontDistinct<T>(l: List<T>, r: List<T>)
    requires Valid(l) && PoppedFront(l, r)
    ensures forall i, j :: 0 <= i < j < |r.order| ==> r.order[i] != r.order[j]
  {
    assert forall i :: 0 <= i < |r.order| ==> r.order[i] == l.order[i + 1];
  }

  lemma PoppedFrontNext<T>(l: List<T>, r: List<T>)
    requires Valid(l) && PoppedFront(l, r)
    ensures forall i :: 0 <= i < |r.order| ==> r.order[i] in r.heap && r.heap[r.order[i]].next == PtrAt(r, i + 1)
  {
    forall i | 0 <= i < |r.order|
      ensures r.order[i] in r.heap && r.heap[r.order[i]].next == PtrAt(r, i + 1)
    {
      var y := l.order[i + 1];
      assert r.order[i] == y;
      assert y != l.order[0];
      assert PtrAt(r, i + 1) == PtrAt(l, i + 2);
      assert l.heap[y].next == PtrAt(l, i + 2);
    }
  }

  lemma PoppedFrontPrev<T>(l: List<T>, r: List<T>)
    requires Valid(l) && PoppedFront(l, r)
    ensures forall i :: 0 <= i < |r.order| ==> r.order[i] in r.heap && r.heap[r.order[i]].prev == PtrAt(r, i - 1)
  {
    forall i | 0 <= i < |r.order|
      ensures r.order[i] in r.heap && r.heap[r.order[i]].prev == PtrAt(r, i - 1)
    {
      var y := l.order[i + 1];
      assert r.order[i] == y;
      assert y != l.order[0];
      if i > 0 {
        assert PtrAt(l, 1) != Some(y);
        assert PtrAt(r, i - 1) == PtrAt(l, i);
        assert l.heap[y].prev == PtrAt(l, i);
      }
    }
  }

  lemma PoppedFrontValues<T>(l: List<T>, r: List<T>)
    requires Valid(l) && PoppedFront(l, r)
    ensures forall i :: 0 <= i < |r.order| ==> r.order[i] in r.heap
    ensures Values(r.heap, r.order) == Values(l.heap, l.order)[1..]
  {
    forall i | 0 <= i < |r.order|
      ensures r.order[i] in r.heap
      ensures Values(r.heap, r.order)[i] == Values(l.heap, l.order)[i + 1]
    {
      var y := l.order[i + 1];
      assert r.order[i] == y;
      assert y != l.order[0];
      assert r.heap[y].data == l.heap[y].data;
    }
  }

  // ---------------------------------------------------------------------
  // pop_back

  /** What `pop_back` does to a non-empty representation: the tail node
      leaves the heap and the new tail's `next` is nulled. */
  ghost predicate PoppedBack<T>(l: List<T>, r: List<T>)
  {
    && |l.order| > 0
    && r.order == l.order[..|l.order| - 1]
    && r.free == l.free
    && r.head == (if |l.order| == 1 then None else l.head)
    && r.tail == PtrAt(l, |l.order| - 2)
    && (forall y :: y in r.heap <==> y in l.heap && y != l.order[|l.order| - 1])
    && (forall y :: y in r.heap ==>
          r.heap[y] == if PtrAt(l, |l.order| - 2) == Some(y) then l.heap[y].(next := None) else l.heap[y])
  }

  lemma PopBackShape<T>(l: List<T>)
    requires Valid(l) && |l.order| > 0
    ensures PoppedBack(l, PopBack(l).1)
    ensures PopBack(l).0 == Some(l.heap[l.order[|l.order| - 1]].data)
  {
    var n := |l.order|;
    assert l.heap[l.order[n - 1]].prev == PtrAt(l, n - 2);
    if n > 1 {
      assert l.order[n - 2] != l.order[n - 1];
    }
  }

  /** `pop_back` on an empty list returns `None` and leaves the list
      alone; otherwise it returns the last value and removes exactly it,
      keeping the representation valid. */
  lemma PopBackCorrect<T>(l: List<T>)
    requires Valid(l)
    ensures var (x, r) := PopBack(l);
      && Valid(r)
      && (|Contents(l)| == 0 ==> x.None? && r == l)
      && (|Contents(l)| > 0 ==>
            x == Some(Contents(l)[|Contents(l)| - 1]) && Contents(r) == Contents(l)[..|Contents(l)| - 1])
  {
    if |l.order| > 0 {
      var r := PopBack(l).1;
      PopBackShape(l);
      PoppedBackValid(l, r);
      PoppedBackValues(l, r);
    }
  }

  lemma PoppedBackValid<T>(l: List<T>, r: List<T>)
    requires Valid(l) && PoppedBack(l, r)
    ensures Valid(r)
  {
    PoppedBackDistinct(l, r);
    PoppedBackNext(l, r);
    PoppedBackPrev(l, r);
    assert r.head == PtrAt(r, 0);
    assert r.tail == PtrAt(r, |r.order| - 1);
  }

  lemma PoppedBackDistinct<T>(l: List<T>, r: List<T>)
    requires Valid(l) && PoppedBack(l, r)
    ensures forall i, j :: 0 <= i < j < |r.order| ==> r.order[i] != r.order[j]
  {
    assert forall i :: 0 <= i < |r.order| ==> r.order[i] == l.order[i];
  }

  lemma PoppedBackNext<T>(l: List<T>, r: List<T>)
    requires Valid(l) && PoppedBack(l, r)
    ensures forall i :: 0 <= i < |r.order| ==> r.order[i] in r.heap && r.heap[r.order[i]].next == PtrAt(r, i + 1)
  {
    var n := |l.order|;
    forall i | 0 <= i < |r.order|
      ensures r.order[i] in r.heap && r.heap[r.order[i]].next == PtrAt(r, i + 1)
    {
      var y := l.order[i];
      assert r.order[i] == y;
      assert y != l.order[n - 1];
      if i < n - 2 {
        assert PtrAt(l, n - 2) != Some(y);
        assert PtrAt(r, i + 1) == PtrAt(l, i + 1);
        assert l.heap[y].next == PtrAt(l, i + 1);
      }
    }
  }

  lemma PoppedBackPrev<T>(l: List<T>, r: List<T>)
    requires Valid(l) && PoppedBack(l, r)
    ensures forall i :: 0 <= i < |r.order| ==> r.order[i] in r.heap && r.heap[r.order[i]].prev == PtrAt(r, i - 1)
  {
    var n := |l.order|;
    forall i | 0 <= i < |r.order|
      ensures r.order[i] in r.heap && r.heap[r.order[i]].prev == PtrAt(r, i - 1)
    {
      var y := l.order[i];
      assert r.order[i] == y;
      assert y != l.order[n - 1];
      assert PtrAt(r, i - 1) == PtrAt(l, i - 1);
      assert l.heap[y].prev == PtrAt(l, i - 1);
    }
  }

  lemma PoppedBackValues<T>(l: List<T>, r: List<T>)
    requires Valid(l) && PoppedBack(l, r)
    ensures forall i :: 0 <= i < |r.order| ==> r.order[i] in r.heap
    ensures Values(r.heap, r.order) == Values(l.heap, l.order)[..|l.order| - 1]
  {
    var n := |l.order|;
    forall i | 0 <= i < |r.order|
      ensures r.order[i] in r.heap
      ensures Values(r.heap, r.order)[i] == Values(l.heap, l.order)[i]
    {
      var y := l.order[i];
      assert r.order[i] == y;
      assert y != l.order[n - 1];
      assert r.heap[y].data == l.heap[y].data;
    }
  }

  // ---------------------------------------------------------------------
  // Round trips

  /** Popping at the end just pushed to gives back the pushed value and
      the original contents. */
  lemma PushThenPopSameEnd<T>(l: List<T>, t: T)
    requires Valid(l)
    ensures Valid(PushFront(l, t)) && Valid(PushBack(l, t))
    ensures var (x, r) := PopFront(PushFront(l, t)); x == Some(t) && Valid(r) && Contents(r) == Contents(l)
    ensures var (x, r) := PopBack(PushBack(l, t)); x == Some(t) && Valid(r) && Contents(r) == Contents(l)
  {
    PushFrontCorrect(l, t);
    PopFrontCorrect(PushFront(l, t));
    PushBackCorrect(l, t);
    PopBackCorrect(PushBack(l, t));
    assert ([t] + Contents(l))[1..] == Contents(l);
    assert (Contents(l) + [t])[..|Contents(l)|] == Contents(l);
  }

  /** Used as a queue (push at the back, pop at the front), a non-empty
      deque yields its oldest value first. */
  lemma PushBackThenPopFront<T>(l: List<T>, t: T)
    requires Valid(l) && |Contents(l)| > 0
    ensures Valid(PushBack(l, t))
    ensures var (x, r) := PopFront(PushBack(l, t));
      x == Some(Contents(l)[0]) && Valid(r) && Contents(r) == Contents(l)[1..] + [t]
  {
    PushBackCorrect(l, t);
    PopFrontCorrect(PushBack(l, t));
    assert (Contents(l) + [t])[1..] == Contents(l)[1..] + [t];
  }

  // ---------------------------------------------------------------------
  // No leaked nodes

  /** Every allocated node is on the list: nothing pushed is lost and
      everything popped is freed. Kept apart from `Valid` because it is
      needed only by the lemmas below. */
  ghost predicate NoGarbage<T>(l: List<T>)
  {
    forall a :: a in l.heap ==> a in l.order
  }

  /** Each operation allocates only the node it links in and frees exactly
      the node it unlinks. */
  lemma NoGarbageKept<T>(l: List<T>, t: T)
    requires Valid(l) && NoGarbage(l)
    ensures NoGarbage(New<T>())
    ensures NoGarbage(PushFront(l, t))
    ensures NoGarbage(PushBack(l, t))
    ensures NoGarbage(PopFront(l).1)
    ensures NoGarbage(PopBack(l).1)
  {
    PushFrontShape(l, t);
    PushBackShape(l, t);
    if |l.order| > 0 {
      PopFrontShape(l);
      PopBackShape(l);
      PoppedFrontKept(l, PopFront(l).1);
      PoppedBackKept(l, PopBack(l).1);
    }
  }

  lemma PoppedFrontKept<T>(l: List<T>, r: List<T>)
    requires Valid(l) && NoGarbage(l) && PoppedFront(l, r)
    ensures NoGarbage(r)
  {
    forall a | a in r.heap
      ensures a in r.order
    {
      var i :| 0 <= i < |l.order| && l.order[i] == a;
      assert r.order[i - 1] == a;
    }
  }

  lemma PoppedBackKept<T>(l: List<T>, r: List<T>)
    requires Valid(l) && NoGarbage(l) && PoppedBack(l, r)
    ensures NoGarbage(r)
  {
    forall a | a in r.heap
      ensures a in r.order
    {
      var i :| 0 <= i < |l.order| && l.order[i] == a;
      assert i < |l.order| - 1;
      assert r.order[i] == a;
    }
  }

  // ---------------------------------------------------------------------
  // Shape of the links

  /** Structural consequences of the invariant: `head` is null exactly when
      `tail` is; the head has no `prev` and the tail no `next`; and the
      `next` and `prev` links of live nodes are inverse to each other. */
  lemma LinkShape<T>(l: List<T>)
    requires Valid(l)
    ensures l.head.None? <==> l.tail.None?
    ensures l.head.Some? ==> l.head.value in l.heap && l.heap[l.head.value].prev.None?
    ensures l.tail.Some? ==> l.tail.value in l.heap && l.heap[l.tail.value].next.None?
    ensures forall i, j :: 0 <= i < |l.order| && 0 <= j < |l.order| && l.heap[l.order[i]].next == Some(l.order[j]) ==>
      l.heap[l.order[j]].prev == Some(l.order[i])
    ensures forall i, j :: 0 <= i < |l.order| && 0 <= j < |l.order| && l.heap[l.order[j]].prev == Some(l.order[i]) ==>
      l.heap[l.order[i]].next == Some(l.order[j])
  {
    var n := |l.order|;
    if n > 0 {
      assert l.heap[l.order[0]].prev == PtrAt(l, -1);
      assert l.heap[l.order[n - 1]].next == PtrAt(l, n);
    }
    forall i, j | 0 <= i < n && 0 <= j < n && l.heap[l.order[i]].next == Some(l.order[j])
      ensures l.heap[l.order[j]].prev == Some(l.order[i])
    {
      assert PtrAt(l, i + 1) == Some(l.order[j]);
      assert j == i + 1;
    }
    forall i, j | 0 <= i < n && 0 <= j < n && l.heap[l.order[j]].prev == Some(l.order[i])
      ensures l.heap[l.order[i]].next == Some(l.order[j])
    {
      assert PtrAt(l, j - 1) == Some(l.order[i]);
      assert i == j - 1;
    }
  }

  /** Popping the only element nulls both `head` and `tail`. */
  lemma PopLastNullsEnds<T>(l: List<T>)
    requires Valid(l) && |Contents(l)| == 1
    ensures PopFront(l).1.head.None? && PopFront(l).1.tail.None?
    ensures PopBack(l).1.head.None? && PopBack(l).1.tail.None?
  {
    assert l.heap[l.order[0]].next == PtrAt(l, 1);
    assert l.heap[l.order[0]].prev == PtrAt(l, -1);
  }
}
