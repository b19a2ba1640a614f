/** The reverse-Polish calculator stack of hw04: a stack of integer and
    boolean elements with an operator evaluator.

    The Rust `Stack` mutates a `Vec<Elt>` in place and returns a `Result`;
    here every operation takes the stack and returns an `Outcome` holding
    the stack as the Rust method leaves it together with the `Result`.
    The top of the stack is the LAST element of the sequence, as with
    `Vec::push`/`Vec::pop`. */
module Rpn {
  import opened Base

  /** An element of the stack. */
  datatype Elt = Int(n: i32) | Bool(b: bool)

  /** Calculator errors. `Syntax` is produced only by the (absent) parser;
      the `IO` variant is not part of this model. */
  datatype Error = Underflow | Type | Syntax | Quit

  /** Calculator operators. */
  datatype Op = Add | Eq | Neg | Swap | Rand | Quit

  datatype Result<T> = Ok(value: T) | Err(error: Error)

  type Stack = seq<Elt>

  /** The stack a `&mut self` method leaves behind, and what it returned. */
  datatype Outcome<T> = Outcome(stack: Stack, result: Result<T>)

  /** How many operands an operator consumes on success. */
  function Arity(op: Op): nat
  {
    match op
    case Add => 2
    case Eq => 2
    case Neg => 1
    case Swap => 2
    case Rand => 1
    case Quit => 0
  }

  /** How many results an operator pushes on success. */
  function Results(op: Op): nat
  {
    match op
    case Swap => 2
    case Quit => 0
    case _ => 1
  }

  /** The two topmost elements are both integers. */
  predicate TwoInts(s: Stack)
  {
    |s| >= 2 && s[|s| - 1].Int? && s[|s| - 2].Int?
  }

  /** The `i32` arithmetic an operator would perform overflows (a panic in
      the Rust program); `Eval` requires that this does not happen. */
  predicate Overflows(s: Stack, op: Op)
  {
    match op
    case Add => TwoInts(s) && !InI32(s[|s| - 1].n + s[|s| - 2].n)
    case Neg => |s| > 0 && s[|s| - 1] == Int(I32_MIN as i32)
    case _ => false
  }

  /** Rust's `/` on integers truncates toward zero. */
  function RustDiv2(x: int): int
  {
    if x >= 0 then x / 2 else -((-x) / 2)
  }

  /** How popping two integer operands fails when the top two elements are
      not both integers: the error, and the elements already removed. */
  predicate TwoIntFailure(s: Stack, r: Outcome<()>)
  {
    if |s| == 0 then r == Outcome(s, Err(Underflow))
    else if s[|s| - 1].Bool? then r == Outcome(s[..|s| - 1], Err(Type))
    else if |s| == 1 then r == Outcome([], Err(Underflow))
    else r == Outcome(s[..|s| - 2], Err(Type))
  }

  function New(): (s: Stack)
    ensures |s| == 0
  {
    []
  }

  /** `Stack::push`: always succeeds. */
  function Push(s: Stack, v: Elt): (r: Outcome<()>)
    ensures r.result.Ok?
    ensures |r.stack| == |s| + 1 && r.stack[|s|] == v && r.stack[..|s|] == s
  {
    Outcome(s + [v], Ok(()))
  }

  /** `Stack::pop`: the top element, or `Underflow` on an empty stack. */
  function Pop(s: Stack): (r: Outcome<Elt>)
    ensures |s| == 0 <==> r.result == Err(Underflow)
    ensures |s| == 0 ==> r.stack == s
    ensures |s| > 0 ==> r.result == Ok(s[|s| - 1]) && r.stack + [s[|s| - 1]] == s
  {
    if |s| == 0 then Outcome(s, Err(Underflow))
    else Outcome(s[..|s| - 1], Ok(s[|s| - 1]))
  }

  /** `Stack::pop_int`: like `Pop`, but a boolean on top is a `Type` error;
      the boolean has been popped all the same. */
  function PopInt(s: Stack): (r: Outcome<i32>)
    ensures |s| == 0 ==> r == Outcome(s, Err(Underflow))
    ensures |s| > 0 ==> r.stack == s[..|s| - 1]
    ensures |s| > 0 && s[|s| - 1].Bool? ==> r.result == Err(Type)
    ensures |s| > 0 && s[|s| - 1].Int? ==> r.result == Ok(s[|s| - 1].n)
  {
    var p := Pop(s);
    match p.result
    case Err(e) => Outcome(p.stack, Err(e))
    case Ok(Int(x)) => Outcome(p.stack, Ok(x))
    case Ok(Bool(_)) => Outcome(p.stack, Err(Type))
  }

  /** `Stack::do_add`: pop x, pop y, push x + y. */
  function DoAdd(s: Stack): (r: Outcome<()>)
    requires !Overflows(s, Add)
    ensures TwoInts(s) ==>
      r == Outcome(s[..|s| - 2] + [Int(s[|s| - 1].n + s[|s| - 2].n)], Ok(()))
    ensures !TwoInts(s) ==> TwoIntFailure(s, r)
  {
    var px := PopInt(s);
    if px.result.Err? then Outcome(px.stack, Err(px.result.error))
    else
      var py := PopInt(px.stack);
      if py.result.Err? then Outcome(py.stack, Err(py.result.error))
      else Push(py.stack, Int(px.result.value + py.result.value))
  }

  /** `Stack::do_eq`: pop x, pop y, push x == y; only integers compare. */
  function DoEq(s: Stack): (r: Outcome<()>)
    ensures TwoInts(s) ==>
      r == Outcome(s[..|s| - 2] + [Bool(s[|s| - 1].n == s[|s| - 2].n)], Ok(()))
    ensures !TwoInts(s) ==> TwoIntFailure(s, r)
  {
    var px := PopInt(s);
    if px.result.Err? then Outcome(px.stack, Err(px.result.error))
    else
      var py := PopInt(px.stack);
      if py.result.Err? then Outcome(py.stack, Err(py.result.error))
      else Push(py.stack, Bool(px.result.value == py.result.value))
  }

  /** `Stack::do_neg`: arithmetic negation of an integer, logical negation
      of a boolean; never a `Type` error. */
  function DoNeg(s: Stack): (r: Outcome<()>)
    requires !Overflows(s, Neg)
    ensures |s| == 0 ==> r == Outcome(s, Err(Underflow))
    ensures |s| > 0 ==> r.result.Ok? && |r.stack| == |s| && r.stack[..|s| - 1] == s[..|s| - 1]
    ensures |s| > 0 && s[|s| - 1].Int? ==> r.stack[|s| - 1] == Int(-s[|s| - 1].n)
    ensures |s| > 0 && s[|s| - 1].Bool? ==> r.stack[|s| - 1] == Bool(!s[|s| - 1].b)
  {
    var p := Pop(s);
    match p.result
    case Err(e) => Outcome(p.stack, Err(e))
    case Ok(Int(x)) => Push(p.stack, Int(0 - x))
    case Ok(Bool(b)) => Push(p.stack, Bool(!b))
  }

  /** `Stack::do_swap`: pop e1, pop e2, push e1, push e2. With a single
      element, that element is lost to the failed second pop. */
  function DoSwap(s: Stack): (r: Outcome<()>)
    ensures |s| >= 2 ==> r == Outcome(s[..|s| - 2] + [s[|s| - 1], s[|s| - 2]], Ok(()))
    ensures |s| < 2 ==> r == Outcome([], Err(Underflow))
  {
    var p1 := Pop(s);
    if p1.result.Err? then Outcome(p1.stack, Err(p1.result.error))
    else
      var p2 := Pop(p1.stack);
      if p2.result.Err? then Outcome(p2.stack, Err(p2.result.error))
      else
        var q := Push(p2.stack, p1.result.value);
        Push(q.stack, p2.result.value)
  }

  /** `Stack::do_rand`: the "random" value is deterministic, x / 2. */
  function DoRand(s: Stack): (r: Outcome<()>)
    ensures |s| == 0 ==> r == Outcome(s, Err(Underflow))
    ensures |s| > 0 && s[|s| - 1].Bool? ==> r == Outcome(s[..|s| - 1], Err(Type))
    ensures |s| > 0 && s[|s| - 1].Int? ==>
      && r.result.Ok?
      && |r.stack| == |s| && r.stack[..|s| - 1] == s[..|s| - 1]
      && r.stack[|s| - 1].Int?
      && var x, y := s[|s| - 1].n, r.stack[|s| - 1].n;
         (x > 0 ==> 0 <= y < x) && (x < 0 ==> x < y <= 0) && (x == 0 ==> y == 0)
  {
    var px := PopInt(s);
    if px.result.Err? then Outcome(px.stack, Err(px.result.error))
    else Push(px.stack, Int(RustDiv2(px.result.value)))
  }

  /** `Stack::eval`. */
  function Eval(s: Stack, op: Op): (r: Outcome<()>)
    requires !Overflows(s, op)
    ensures op == Op.Quit ==> r == Outcome(s, Err(Error.Quit))
    ensures op != Op.Quit ==> r.result != Err(Error.Quit) && r.result != Err(Syntax)
  {
    match op
    case Add => DoAdd(s)
    case Eq => DoEq(s)
    case Neg => DoNeg(s)
    case Swap => DoSwap(s)
    case Rand => DoRand(s)
    case Quit => Outcome(s, Err(Error.Quit))
  }

  /** Every operator, on success, replaces exactly its `Arity` operands by
      its `Results` and leaves everything below them alone; on failure it
      has only popped, never pushed, so the stack is a prefix of the input. */
  lemma EvalShape(s: Stack, op: Op)
    requires !Overflows(s, op)
    ensures var r := Eval(s, op);
      && (r.result.Ok? ==>
            && Arity(op) <= |s|
            && |r.stack| == |s| - Arity(op) + Results(op)
            && r.stack[..|s| - Arity(op)] == s[..|s| - Arity(op)])
      && (r.result.Err? ==> r.stack <= s)
  {
    var r := Eval(s, op);
    match op
    case Add => TwoIntShape(s, op, r);
    case Eq => TwoIntShape(s, op, r);
    case Neg => OneElementShape(s, op, r);
    case Swap => SwapShape(s);
    case Rand => OneElementShape(s, op, r);
    case Quit =>
    assert Shaped(s, op, r);
  }

  /** The property `EvalShape` states, for one operator and its outcome. */
  predicate Shaped(s: Stack, op: Op, r: Outcome<()>)
  {
    && (r.result.Ok? ==>
          && Arity(op) <= |s|
          && |r.stack| == |s| - Arity(op) + Results(op)
          && r.stack[..|s| - Arity(op)] == s[..|s| - Arity(op)])
    && (r.result.Err? ==> r.stack <= s)
  }

  /** `Add` and `Eq` pop two integers and push one result. */
  lemma TwoIntShape(s: Stack, op: Op, r: Outcome<()>)
    requires op == Add || op == Eq
    requires TwoInts(s) ==> r.result.Ok? && exists e :: r.stack == s[..|s| - 2] + [e]
    requires !TwoInts(s) ==> TwoIntFailure(s, r)
    ensures Shaped(s, op, r)
  {
    if TwoInts(s) {
      var e :| r.stack == s[..|s| - 2] + [e];
      assert r.stack[..|s| - 2] == s[..|s| - 2];
    }
  }

  /** `Neg` and `Rand` replace the top element by one result. */
  lemma OneElementShape(s: Stack, op: Op, r: Outcome<()>)
    requires op == Neg || op == Rand
    requires r.result.Ok? ==> |s| > 0 && |r.stack| == |s| && r.stack[..|s| - 1] == s[..|s| - 1]
    requires r.result.Err? ==> r.stack == s || (|s| > 0 && r.stack == s[..|s| - 1])
    ensures Shaped(s, op, r)
  {
  }

  lemma SwapShape(s: Stack)
    ensures Shaped(s, Swap, DoSwap(s))
  {
    if |s| >= 2 {
      assert DoSwap(s).stack[..|s| - 2] == s[..|s| - 2];
    }
  }

  /** Pushing then popping gives back the value and the original stack. */
  lemma PushThenPop(s: Stack, v: Elt)
    ensures Pop(Push(s, v).stack) == Outcome(s, Ok(v))
  {
    assert (s + [v])[..|s|] == s;
  }

  /** `Swap` is an involution on stacks of depth at least two. */
  lemma SwapTwice(s: Stack)
    requires |s| >= 2
    ensures Eval(Eval(s, Swap).stack, Swap) == Outcome(s, Ok(()))
  {
    var t := Eval(s, Swap).stack;
    assert t[..|t| - 2] == s[..|s| - 2];
    assert s == s[..|s| - 2] + [s[|s| - 2], s[|s| - 1]];
  }

  /** `Neg` is an involution whenever it does not overflow. */
  lemma NegTwice(s: Stack)
    requires |s| > 0 && !Overflows(s, Neg)
    ensures !Overflows(Eval(s, Neg).stack, Neg)
    ensures Eval(Eval(s, Neg).stack, Neg) == Outcome(s, Ok(()))
  {
    var t := Eval(s, Neg).stack;
    assert t[..|t| - 1] == s[..|s| - 1];
    assert s == s[..|s| - 1] + [s[|s| - 1]];
    assert t == t[..|t| - 1] + [t[|t| - 1]];
  }

  /** Evaluating `Add` on two integers and popping the result. */
  lemma AddThenPop(x: i32, y: i32)
    requires InI32(x + y)
    ensures Pop(Eval([Int(y), Int(x)], Add).stack) == Outcome([], Ok(Int(x + y)))
  {
  }

  /** `Rand` on a positive integer leaves a value in [0, x). */
  lemma RandInRange(s: Stack, x: i32)
    requires x > 0
    ensures var p := Pop(Eval(s + [Int(x)], Rand).stack);
      p.result.Ok? && p.stack == s && p.result.value.Int? && 0 <= p.result.value.n < x
  {
    var t := Eval(s + [Int(x)], Rand).stack;
    assert (s + [Int(x)])[..|s|] == s;
    assert t[..|s|] == s;
  }
}
