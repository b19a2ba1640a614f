/** The singly-linked LIFO stack of lists/first.rs: a chain of boxed nodes
    holding `i32` values, pushed and popped at the head. `Drop` only frees
    the nodes and has no observable effect, so it is not modelled. */
module StackList {
  import opened Base

  datatype Link = Empty | More(val: i32, next: Link)

  datatype List = List(head: Link)

  /** The values from the head (the top of the stack) down. */
  function Elements(l: Link): seq<i32>
  {
    match l
    case Empty => []
    case More(v, next) => [v] + Elements(next)
  }

  /** `List::new`. */
  function New(): (l: List)
    ensures Elements(l.head) == []
  {
    List(Empty)
  }

  /** `List::push`: the new node takes over the old head as its `next`. */
  function Push(l: List, v: i32): (r: List)
    ensures Elements(r.head) == [v] + Elements(l.head)
  {
    List(More(v, l.head))
  }

  /** `List::pop`: the head value, and the list without it. */
  function Pop(l: List): (r: (Option<i32>, List))
    ensures Elements(l.head) == [] ==> r.0.None? && Elements(r.1.head) == []
    ensures Elements(l.head) != [] ==>
      r.0 == Some(Elements(l.head)[0]) && Elements(r.1.head) == Elements(l.head)[1..]
  {
    match l.head
    case Empty => (None, List(Empty))
    case More(v, next) => (Some(v), List(next))
  }

  /** Pushing then popping returns the pushed value and the original list. */
  lemma PushThenPop(l: List, v: i32)
    ensures Pop(Push(l, v)) == (Some(v), l)
  {
  }

  // ---------------------------------------------------------------------
  // Interleaved pushes and pops against a reference stack

  datatype Cmd = PushCmd(v: i32) | PopCmd

  /** Run the commands on the linked list, collecting what each pop returns. */
  function Run(l: List, cmds: seq<Cmd>): seq<Option<i32>>
    decreases |cmds|
  {
    if |cmds| == 0 then []
    else match cmds[0]
      case PushCmd(v) => Run(Push(l, v), cmds[1..])
      case PopCmd =>
        var (x, l') := Pop(l);
        [x] + Run(l', cmds[1..])
  }

  /** The same commands on a reference stack kept in a sequence whose LAST
      element is the top (the way a `Vec` is used as a stack). */
  function RunReference(s: seq<i32>, cmds: seq<Cmd>): seq<Option<i32>>
    decreases |cmds|
  {
    if |cmds| == 0 then []
    else match cmds[0]
      case PushCmd(v) => RunReference(s + [v], cmds[1..])
      case PopCmd =>
        if |s| == 0 then [None] + RunReference(s, cmds[1..])
        else [Some(s[|s| - 1])] + RunReference(s[..|s| - 1], cmds[1..])
  }

  /** The linked list behaves as a LIFO stack: for any interleaving of
      pushes and pops, each pop returns what the reference stack returns,
      where the list's head is the reference stack's top. */
  lemma {:induction false} RunMatchesReference(l: List, cmds: seq<Cmd>)
    ensures Run(l, cmds) == RunReference(Reverse(Elements(l.head)), cmds)
    decreases |cmds|
  {
    if |cmds| > 0 {
      var s := Reverse(Elements(l.head));
      match cmds[0]
      case PushCmd(v) =>
        RunMatchesReference(Push(l, v), cmds[1..]);
        assert Reverse(Elements(Push(l, v).head)) == s + [v];
      case PopCmd =>
        var (x, l') := Pop(l);
        RunMatchesReference(l', cmds[1..]);
        if |s| > 0 {
          assert Reverse(Elements(l'.head)) == s[..|s| - 1];
        }
    }
  }

  /** The `basics` test: pop on empty, push 1 2 3, pop twice, push 4 5,
      pop until empty. */
  lemma BasicsScenario()
    ensures Pop(New()).0 == None
    ensures var l := Push(Push(Push(New(), 1), 2), 3);
      && Pop(l).0 == Some(3) && Pop(Pop(l).1).0 == Some(2)
      && var m := Push(Push(Pop(Pop(l).1).1, 4), 5);
      && Pop(m).0 == Some(5) && Pop(Pop(m).1).0 == Some(4)
      && Pop(Pop(Pop(m).1).1).0 == Some(1) && Pop(Pop(Pop(Pop(m).1).1).1).0 == None
  {
  }
}
