/** The persistent list of lists/third.rs: nodes are shared through `Arc`
    and never mutated, so `append` and `tail` build new lists that share
    the receiver's nodes. Immutable datatypes share structure the same
    way, so `append`, `tail`, `head` and `iter` leave their receiver as it
    was. The inherent `drop(&mut self)` is the one operation that changes
    its receiver: it takes the head, leaving the list empty, and its
    `Arc::try_unwrap` loop frees the nodes no other list shares. The
    freeing is not modelled; other lists keep their nodes either way. */
module SharedList {
  import opened Base

  datatype Link<T> = Nil | Cons(val: T, next: Link<T>)

  datatype List<T> = List(head: Link<T>)

  /** The values from the head, newest first. */
  function Elements<T>(l: Link<T>): seq<T>
  {
    match l
    case Nil => []
    case Cons(v, next) => [v] + Elements(next)
  }

  /** `List::new`. */
  function New<T>(): (l: List<T>)
    ensures Elements(l.head) == []
  {
    List(Nil)
  }

  /** `List::append`: a new head node pointing at the receiver's nodes. */
  function Append<T>(l: List<T>, v: T): (r: List<T>)
    ensures Elements(r.head) == [v] + Elements(l.head)
  {
    List(Cons(v, l.head))
  }

  /** `List::tail`: the list after the head; the empty list for an empty
      list. */
  function Tail<T>(l: List<T>): (r: List<T>)
    ensures |Elements(l.head)| == 0 ==> Elements(r.head) == []
    ensures |Elements(l.head)| > 0 ==> Elements(r.head) == Elements(l.head)[1..]
  {
    match l.head
    case Nil => List(Nil)
    case Cons(_, next) => List(next)
  }

  /** `List::head`: the newest value, if any. */
  function Head<T>(l: List<T>): (r: Option<T>)
    ensures r.None? <==> |Elements(l.head)| == 0
    ensures r.Some? ==> r.value == Elements(l.head)[0]
  {
    match l.head
    case Nil => None
    case Cons(v, _) => Some(v)
  }

  /** The inherent `List::drop`: the receiver is left empty, whatever it
      held, and a later `head` finds nothing. */
  function Drop<T>(l: List<T>): (r: List<T>)
    ensures Elements(r.head) == [] && Head(r).None?
  {
    List(Nil)
  }

  /** A dropped list is a new list again: appending to it gives a list
      of just the appended value. */
  lemma DropLeavesNew<T>(l: List<T>, v: T)
    ensures Drop(l) == New<T>()
    ensures Elements(Append(Drop(l), v).head) == [v]
  {
  }

  /** `append` and `tail`/`head` undo each other. */
  lemma AppendThenTail<T>(l: List<T>, v: T)
    ensures Head(Append(l, v)) == Some(v)
    ensures Tail(Append(l, v)) == l
  {
  }

  /** The `basics` test. */
  lemma BasicsScenario()
    ensures Head(New<int>()) == None
    ensures var l2 := Append(Append(New<int>(), 2), 3);
      Head(l2) == Some(3) && Head(Tail(l2)) == Some(2) && Head(Tail(Tail(l2))) == None
  {
  }

  // ---------------------------------------------------------------------
  // Iterator

  /** `Iter`: the node the next call yields from. */
  datatype ListIter<T> = ListIter(next: Link<T>)

  /** `List::iter`. */
  function Iter<T>(l: List<T>): (it: ListIter<T>)
    ensures Elements(it.next) == Elements(l.head)
  {
    ListIter(l.head)
  }

  /** `Iterator::next`. */
  function Next<T>(it: ListIter<T>): (r: (Option<T>, ListIter<T>))
    ensures r.0.None? <==> |Elements(it.next)| == 0
    ensures r.0.Some? ==>
      r.0.value == Elements(it.next)[0] && Elements(r.1.next) == Elements(it.next)[1..]
  {
    match it.next
    case Nil => (None, it)
    case Cons(v, rest) => (Some(v), ListIter(rest))
  }

  /** Calling `next` until it returns `None` yields every value of the
      list once, newest first. */
  method Collect<T>(l: List<T>) returns (out: seq<T>)
    ensures out == Elements(l.head)
  {
    out := [];
    var it := Iter(l);
    var done := false;
    while !done
      invariant out + Elements(it.next) == Elements(l.head)
      invariant done ==> Elements(it.next) == []
      decreases |Elements(it.next)|, !done
    {
      var (x, rest) := Next(it);
      match x
      case None =>
        done := true;
      case Some(v) =>
        out := out + [v];
        it := rest;
    }
  }

  /** Each `append` adds exactly one value at the front of what the
      iterator yields (the `iters` test appends 2, 3, 4 and reads 4, 3, 2). */
  lemma IterAfterAppends<T>(xs: seq<T>)
    ensures Elements(AppendAll(New<T>(), xs).head) == Reverse(xs)
  {
    AppendAllElements(New<T>(), xs);
  }

  /** Append each value of xs in turn. */
  function AppendAll<T>(l: List<T>, xs: seq<T>): List<T>
    decreases |xs|
  {
    if |xs| == 0 then l else AppendAll(Append(l, xs[0]), xs[1..])
  }

  lemma {:induction false} AppendAllElements<T>(l: List<T>, xs: seq<T>)
    ensures Elements(AppendAll(l, xs).head) == Reverse(xs) + Elements(l.head)
    decreases |xs|
  {
    if |xs| > 0 {
      AppendAllElements(Append(l, xs[0]), xs[1..]);
      assert Reverse(xs) == Reverse(xs[1..]) + [xs[0]];
    }
  }
}
