# Rust tutorial exercises, modelled in Dafny

This project models the small sequential data structures and algorithms
of a set of Rust exercises, and proves what their code and tests promise:

- the reverse-Polish calculator stack of hw04 (`Stack`, `Elt`, `Op`,
  `Error`): module `Rpn`, file `rpn.dfy`;
- the arbitrary-precision naturals of rust101 part 05 (`BigInt`, limb
  addition with carry, `min`, `vec_min`, the reverse limb iterator):
  module `BigNat`, file `bigint.dfy`;
- the binary search tree of hw03, whose `new`, `insert` and `search` are
  the same code as hw02's, with its right-spine iterators: module `Bst`,
  file `bst.dfy`;
- three linked lists:
  - the singly-linked stack of `lists/first.rs`: module `StackList`;
  - the persistent shared list of `lists/third.rs`: module `SharedList`;
  - the raw-pointer doubly-linked deque of rust101 part 16: module
    `Deque`, whose heap of nodes and `next`/`prev` links are explicit;
- `vec_min` and `vec_sum` of rust101 part 00: module `VecOps`;
- the sieve of Eratosthenes of hw01 problem 3, both as written in `u32`
  and with unbounded arithmetic: module `Sieve`;
- the rooms and halls of the hw05 game, with halls joining rooms by name:
  module `Game`.

The module `Base` in `base.dfy` holds what the others share:
- `Option`;
- the integer widths `i32`, `u32` and `u64`;
- sequence reversal.

Rust methods that take `&mut self` become functions that return the new
state together with the Rust return value. A Rust panic becomes `None`,
or a precondition where noted below.

## Model

| member | source | states |
|---|---|---|
| Rpn.New | hw04/src/rpn.rs:60-62 | a new stack is empty |
| Rpn.Push | hw04/src/rpn.rs:65-68 | push always succeeds and puts the value on top of the unchanged stack |
| Rpn.Pop | hw04/src/rpn.rs:71-73 | pop fails with `Underflow` exactly on an empty stack, leaving it empty; otherwise it returns the top and removes only it |
| Rpn.PopInt | hw04/src/rpn.rs:87-93 | `Underflow` on an empty stack; otherwise the top is removed in every case, an integer is returned, and a boolean gives `Type` |
| Rpn.DoAdd | hw04/src/rpn.rs:95-101 | on two integers on top, both are replaced by their sum; otherwise the failure follows `pop_int`: operands already popped stay popped, with `Underflow` or `Type` as the case may be |
| Rpn.DoEq | hw04/src/rpn.rs:103-109 | on two integers on top, both are replaced by `Bool(x == y)`; any boolean operand gives `Type` after the pops made so far |
| Rpn.DoNeg | hw04/src/rpn.rs:111-119 | `Underflow` on an empty stack; otherwise it always succeeds with the same depth, an integer becomes its negation and a boolean its complement, and nothing below changes |
| Rpn.DoSwap | hw04/src/rpn.rs:121-128 | the top two elements trade places and nothing below changes; with fewer than two elements it is `Underflow`, and a single element is lost |
| Rpn.DoRand | hw04/src/rpn.rs:130-134 | a boolean on top gives `Type`, and an empty stack gives `Underflow`; an integer x is replaced by an integer in [0, x) for positive x, in (x, 0] for negative x, and 0 for 0 |
| Rpn.Eval | hw04/src/rpn.rs:76-85 | `Quit` returns the `Quit` error with the stack untouched; no other operator yields `Quit` or `Syntax` |
| Rpn.EvalShape | hw04/src/rpn.rs:76-134 | a successful operator replaces exactly its operands by its results and leaves the rest of the stack alone; a failed one has only popped, so what is left is a prefix of the input |
| Rpn.PushThenPop | hw04/src/rpn.rs:65-73 | push then pop returns the value and the original stack |
| Rpn.SwapTwice | hw04/src/rpn.rs:121-128 | swapping twice restores any stack of depth two or more |
| Rpn.NegTwice | hw04/src/rpn.rs:111-119 | negating twice restores the stack whenever the first negation does not overflow |
| Rpn.AddThenPop | hw04/src/rpn.rs:193-200 | evaluating `Add` on `[y, x]` and popping yields `Int(x + y)` and an empty stack |
| Rpn.RandInRange | hw04/src/rpn.rs:287-297 | `Rand` on a positive integer pushes a value in [0, x) over the untouched rest of the stack |
| BigNat.New | rust101/src/part05.rs:10-16 | `new(x)` is normalised, denotes x, and has no limbs exactly when x is 0 |
| BigNat.FromVec | rust101/src/part05.rs:20-32 | the result is normalised, denotes the same number as the input, and is the input with only zero limbs removed from the top |
| BigNat.DigitsOfValue | rust101/src/part05.rs:36-38 | a normalised non-zero number with d limbs lies in [B^(d-1), B^d), where B is 2^64 |
| BigNat.NumDigits | rust101/src/part05.rs:36-38 | `num_digits` is the limb count, and the value is below 2^64 raised to it; the tight lower bound for normalised numbers is `BigNat.DigitsOfValue` |
| BigNat.NumNonZeroDigits | rust101/src/part05.rs:42-50 | the count of non-zero limbs, which is at most the number of limbs, with equality exactly when no limb is zero |
| BigNat.WrappingAdd | rust101/src/part05.rs:54 | `u64` wrapping addition: the sum less 2^64 when it reaches 2^64 |
| BigNat.OverflowingAdd | rust101/src/part05.rs:53-67 | the returned limb plus 2^64 times the carry out is a + b + carry in |
| BigNat.AddStep | rust101/src/part05.rs:115-121 | one loop iteration keeps "limbs so far plus carry equal the low parts of both operands" |
| BigNat.AddInvStep | rust101/src/part05.rs:115-121 | the loop invariant, including "a zero limb without carry comes from two zero limbs", survives one more limb |
| BigNat.Add | rust101/src/part05.rs:108-136 | the sum denotes value(a) + value(b); it has as many limbs as the longer operand, or one more; normalised operands give a normalised sum |
| BigNat.LongerIsLarger | rust101/src/part05.rs:75-78 | a normalised number with more limbs is larger than one with fewer |
| BigNat.TopDifference | rust101/src/part05.rs:80-86 | with equal lengths, the first limb from the top that differs decides which number is smaller |
| BigNat.Min | rust101/src/part05.rs:74-90 | fewer limbs wins; with equal lengths `self` is returned exactly when its value is not greater; for normalised operands, `self` is returned exactly when value(self) ≤ value(b), so ties go to `self` |
| BigNat.VecMin | rust101/src/part05.rs:93-100 | `None` exactly for an empty vector; for normalised elements, the earliest position whose value is not greater than any other |
| BigNat.Iter | rust101/src/part05.rs:146-148 | the cursor starts past the last limb of the number's own limbs |
| BigNat.Next | rust101/src/part05.rs:154-161 | `None` exactly when the cursor is at 0; otherwise the cursor moves down by one and the limb there is yielded |
| BigNat.Drain | rust101/src/part05.rs:151-161 | the k-th value yielded is the k-th limb counted from the top |
| BigNat.IterMostSignificantFirst | rust101/src/part05.rs:146-161 | the iterator yields every limb exactly once, most significant first (the reversed limb vector) |
| Bst.New | hw03/src/bst.rs:16-18 | a new tree holds no keys and is ordered |
| Bst.Search | hw03/src/bst.rs:64-77 | a key reported found is in the tree |
| Bst.Insert | hw03/src/bst.rs:22-60 | the flag is true exactly when `search` would not find the key; a false flag leaves the tree unchanged; the keys afterwards are the old keys plus the new one; the ordering invariant is kept |
| Bst.SearchComplete | hw03/src/bst.rs:64-77 | on an ordered tree `search` is true exactly for the stored keys |
| Bst.InsertThenSearch | hw02/src/bst.rs:22-77 | on an ordered tree, `insert` returns false exactly for a present key, and afterwards the key and every earlier key are found |
| Bst.BasicsScenario | hw02/src/bst.rs:85-108 | the `basics` test: 2 is added once and refused the second time, then 3, 1, 8 and 7 are added and all are found |
| Bst.Next | hw03/src/bst.rs:91-142 | `None` exactly at an empty subtree; otherwise the node's key is yielded and the walk moves to the right child only |
| Bst.Iter | hw03/src/bst.rs:85-132 | `into_iter`, `iter` and `iter_mut` start at the root, so draining any of them yields the right spine of the tree |
| Bst.Drain | hw03/src/bst.rs:91-142 | the three iterators yield exactly the keys along the root's right spine |
| Bst.SpineProperties | hw03/src/bst.rs:91-142 | on an ordered tree the iterators yield stored keys in strictly increasing order, starting at the root and ending at the largest key |
| Bst.IterAfterAscendingInserts | hw03/src/bst.rs:175-205 | inserting 1, 2, 3 makes the iterators yield 1, 2, 3 |
| Bst.IterSkipsLeftSubtree | hw03/src/bst.rs:113-122 | after inserting 2 then 1 the tree holds both keys, but the iterators yield only 2 |
| StackList.New | lists/src/first.rs:8-10 | a new list is empty |
| StackList.Push | lists/src/first.rs:23-30 | push puts the value in front of the old contents |
| StackList.Pop | lists/src/first.rs:34-43 | `None` on an empty list; otherwise the head value, and the list without exactly that value |
| StackList.PushThenPop | lists/src/first.rs:23-43 | push then pop returns the value and the original list |
| StackList.RunMatchesReference | lists/src/first.rs:23-43 | for any interleaving of pushes and pops, each pop returns what a last-in first-out reference stack returns |
| StackList.BasicsScenario | lists/src/first.rs:61-100 | the `basics` test: the pops return None, 3, 2, 5, 4, 1, None |
| SharedList.New | lists/src/third.rs:15-17 | a new list is empty |
| SharedList.Append | lists/src/third.rs:34-38 | the new list holds the value in front of the receiver's values; the receiver itself is a value and cannot change |
| SharedList.Tail | lists/src/third.rs:42-46 | the values after the first; an empty list gives an empty list |
| SharedList.Head | lists/src/third.rs:50-52 | `None` exactly for an empty list, otherwise the newest value |
| SharedList.Drop | lists/src/third.rs:21-30 | the inherent `drop(&mut self)` leaves its receiver empty, so `head` answers `None` afterwards |
| SharedList.DropLeavesNew | lists/src/third.rs:21-30 | a dropped list is a new list again: appending v to it gives exactly [v] |
| SharedList.AppendThenTail | lists/src/third.rs:34-52 | after `append(v)`, `head` is v and `tail` is the original list |
| SharedList.BasicsScenario | lists/src/third.rs:82-89 | the `basics` test: heads 3, 2 and then none |
| SharedList.Next | lists/src/third.rs:67-75 | `None` exactly at the end; otherwise the first remaining value, with the rest left to yield |
| SharedList.Iter | lists/src/third.rs:61-65 | `iter` starts at the head, so it has exactly the list's values left to yield, newest first |
| SharedList.Collect | lists/src/third.rs:62-75 | calling `next` until `None` yields every value once, newest first |
| SharedList.AppendAllElements | lists/src/third.rs:34-38 | appending a sequence of values one by one puts them, reversed, in front of the old values |
| SharedList.IterAfterAppends | lists/src/third.rs:92-99 | after appending values to a new list, the iterator yields them in reverse order of appending |
| Deque.New | rust101/src/part16.rs:28-30 | a new deque is valid and empty |
| Deque.PushFront | rust101/src/part16.rs:32-42 | `push_front`; its contract is stated by Deque.PushFrontCorrect and Deque.PushFrontShape |
| Deque.PopFront | rust101/src/part16.rs:44-58 | `pop_front`; its contract is stated by Deque.PopFrontCorrect and Deque.PopFrontShape |
| Deque.PushBack | rust101/src/part16.rs:60-70 | `push_back`; its contract is stated by Deque.PushBackCorrect and Deque.PushBackShape |
| Deque.PopBack | rust101/src/part16.rs:72-86 | `pop_back`; its contract is stated by Deque.PopBackCorrect and Deque.PopBackShape |
| Deque.PushFrontCorrect | rust101/src/part16.rs:32-42 | `push_front(t)` keeps the deque valid and turns contents s into [t] + s |
| Deque.PushBackCorrect | rust101/src/part16.rs:60-70 | `push_back(t)` keeps the deque valid and turns contents s into s + [t] |
| Deque.PopFrontCorrect | rust101/src/part16.rs:44-58 | on an empty deque, `None` and nothing changes; otherwise the first value is returned and exactly it is removed, and the deque stays valid |
| Deque.PopBackCorrect | rust101/src/part16.rs:72-86 | on an empty deque, `None` and nothing changes; otherwise the last value is returned and exactly it is removed, and the deque stays valid |
| Deque.PushFrontShape | rust101/src/part16.rs:32-42 | `push_front` places a fresh node in front, whose `next` is the old head, and points the old head's `prev` at it; no other node changes |
| Deque.PushBackShape | rust101/src/part16.rs:60-70 | `push_back` places a fresh node at the back and points the old tail's `next` at it; no other node changes |
| Deque.PopFrontShape | rust101/src/part16.rs:44-58 | `pop_front` frees the head node and nulls the new head's `prev`; no other node changes |
| Deque.PopBackShape | rust101/src/part16.rs:72-86 | `pop_back` frees the tail node and nulls the new tail's `next`; no other node changes |
| Deque.PushThenPopSameEnd | rust101/src/part16.rs:32-86 | popping at the end just pushed gives back the pushed value and the original contents |
| Deque.PushBackThenPopFront | rust101/src/part16.rs:44-70 | used as a queue, a non-empty deque yields its oldest value and keeps the value just pushed at the back |
| Deque.NoGarbageKept | rust101/src/part16.rs:28-86 | every allocated node stays on the list: `new` and all four operations neither leak a node nor keep a popped one |
| Deque.LinkShape | rust101/src/part16.rs:33-83 | `head` is null exactly when `tail` is; the head's `prev` and the tail's `next` are null; one node's `next` is another exactly when that node's `prev` is the first |
| Deque.PopLastNullsEnds | rust101/src/part16.rs:49-51 | popping the only element from either end nulls both `head` and `tail` |
| VecOps.EarliestMinUnique | rust101/src/part00.rs:7-16 | exactly one position is the earliest minimum |
| VecOps.VecMin | rust101/src/part00.rs:7-16 | `None` exactly for an empty vector; otherwise the position of an element no greater than any other and strictly smaller than every earlier one |
| VecOps.SumAppend | rust101/src/part00.rs:18-32 | the sum splits over concatenation |
| VecOps.SumFirst | rust101/src/part00.rs:18-32 | the sum of a non-empty vector is its first element plus the sum of the rest, so the left-to-right fold of `vec_sum` and a first-element split agree |
| VecOps.VecSum | rust101/src/part00.rs:18-32 | `None` exactly for an empty vector; otherwise the sum of all elements |
| VecOps.MainScenario | rust101/src/part00.rs:3-39 | for the vector `read_vec` returns, `[3, 4, 6, -19]`, the minimum is at position 3 and the sum is -6 |
| Sieve.PrimesBelowSpec | hw01/src/problem3.rs:1-3 | the reference list of primes below n is strictly increasing and holds exactly the primes below n |
| Sieve.PrimesBelowSeven | hw01/src/problem3.rs:2 | the documented example: the primes below 7 are [2, 3, 5] |
| Sieve.MarkCorrect | hw01/src/problem3.rs:19-23 | the inner loop marks exactly the multiples of i from i * i on, adding them to the earlier marks |
| Sieve.CompositeRound | hw01/src/problem3.rs:13-15 | a number already marked when its round begins is composite, so it is skipped and the marks need no change |
| Sieve.PrimeRound | hw01/src/problem3.rs:17-23 | a number still unmarked when its round begins is prime; it joins the result, and its marking round keeps the marks correct |
| Sieve.SieveFromCorrect | hw01/src/problem3.rs:12-24 | each round keeps the result equal to the primes found so far and the marks equal to the numbers with a smaller prime factor whose square they reach |
| Sieve.Sieve | hw01/src/problem3.rs:3-27 | `sieve(n)` on unbounded integers; its contract is stated by Sieve.SieveCorrect |
| Sieve.SieveAsWritten | hw01/src/problem3.rs:3-27 | `sieve(n)` in `u32` arithmetic, `None` for an overflow panic; its contract is stated by Sieve.AsWrittenAgrees, Sieve.AsWrittenOverflowsAtMax and Sieve.AsWrittenOverflowsPast65537 |
| Sieve.SieveCorrect | hw01/src/problem3.rs:3-27 | with unbounded arithmetic, `sieve(n)` is exactly the primes below n in increasing order, and empty for n < 2 |
| Sieve.MarkU32Agrees | hw01/src/problem3.rs:19-23 | while n + i fits in `u32`, the `u32` inner loop never overflows and marks what the unbounded one marks |
| Sieve.AsWrittenAgrees | hw01/src/problem3.rs:3-27 | for n ≤ 65537 the `u32` code never overflows and returns exactly the primes below n; at n = 65537 the one round whose square would not fit, 65536, is skipped because it is even |
| Sieve.MarkU32OverflowsAtMax | hw01/src/problem3.rs:20-22 | with n = u32::MAX and i = 2, `j = j + i` overflows |
| Sieve.AsWrittenOverflowsAtMax | hw01/src/problem3.rs:20-22 | the code as written overflows for n = u32::MAX, although the primes below n are a non-empty list of `u32` values |
| Sieve.Prime65537 | hw01/src/problem3.rs:19 | 65537 is prime, and its square exceeds u32::MAX |
| Sieve.SieveFromU32Overflows | hw01/src/problem3.rs:12-23 | with n > 65537, the `u32` code overflows before it finishes; at the latest, `i * i` overflows in the round for 65537 |
| Sieve.AsWrittenOverflowsPast65537 | hw01/src/problem3.rs:19 | for every n > 65537 the code as written overflows, although 65537 belongs in the result |
| Game.NewHall | hw05/src/game/hall.rs:13-15 | a new hall has the given rooms as its left and right ends |
| Game.Other | hw05/src/game/hall.rs:18-26 | a room named like `left` gets `right`; otherwise a room named like `right` gets `left`; a room at neither end panics (`None`) |
| Game.OtherRoundTrip | hw05/src/game/hall.rs:18-26 | going to the far end and asking again leads back when the ends have different names; a hall whose ends share a name always answers with its right end |
| Game.RoomEq | hw05/src/game/room.rs:16-20 | `PartialEq for Room` compares names only; its contract is stated by Game.RoomEqIsEquivalence |
| Game.RoomEqIsEquivalence | hw05/src/game/room.rs:16-22 | room equality is an equivalence and looks only at names, ignoring contents, halls and the wumpus |
| Game.NewRoom | hw05/src/game/room.rs:25-27 | a new room keeps its name, contents and wumpus flag and has no halls |
| Game.AddHall | hw05/src/game/room.rs:29-31 | `add_hall` appends the hall last and changes nothing else |
| Game.NeighborNames | hw05/src/game/room.rs:33-39 | the names at the far ends, in hall order, defined exactly when every hall touches the room |
| Game.NeighborsString | hw05/src/game/room.rs:33-41 | `neighbors_string` does not panic exactly when every hall of the room has the room at one end |
| Game.NoHallsNoNeighbors | hw05/src/game/room.rs:33-41 | a room without halls has an empty neighbour string |
| Game.AddHallNeighbors | hw05/src/game/room.rs:29-39 | adding a hall appends the name at its far end to the neighbour names |
| Game.NeighborNamesByName | hw05/src/game/room.rs:33-39 | only the room's name matters to the neighbour names |
| Game.AddHallThenNeighbors | hw05/src/game/room.rs:29-41 | after `add_hall` on a connected room, the neighbour string lists the new far end after the earlier ones |
| Game.SplitWord | hw05/src/game/room.rs:40 | a space-free word in front of a string extends the first piece the string splits into |
| Game.SplitJoin | hw05/src/game/room.rs:40 | splitting at spaces undoes `join(" ")` for a non-empty list of space-free names |
| Game.NeighborsStringSpec | hw05/src/game/room.rs:33-41 | the neighbour string of a connected room with halls splits back into the far-end names, in hall order, when no name contains a space |
| Game.TwoRoomScenario | hw05/src/game/hall.rs:13-26 | two rooms joined by one hall each list the other as their neighbour |

## Left out

- `rust101/rgrep/src/main.rs` is not part of this model. It is a threaded pipeline over bounded channels and files, and its only pure logic is a substring filter and a count.
- The other files of the repository are not part of this model:
  - `guessing_game` does console I/O with a random secret;
  - `hw01/src/problem2.rs` is `f32` matrix code;
  - `rust101/src/part11.rs`, `part12.rs` and `part13.rs` are effectful closures and type declarations;
  - `lists/src/fourth.rs` and `hw02/src/BST.rs` do not compile.
- The `curio` module of hw05 is not part of this model. A room's curios are an opaque type parameter.
- The `Drop` impl of `lists/src/first.rs:13-20` only reclaims memory, so it is not modelled. The inherent `drop(&mut self)` of `lists/src/third.rs:21-30` is SharedList.Drop: the receiver is left empty, but its `Arc::try_unwrap` loop freeing the unshared nodes is not modelled. The `Rc`/`Arc` reference counts are not modelled either.
- `raw_into_box` and `box_into_raw` (`rust101/src/part16.rs:19-25`) are not modelled. Allocation is an explicit heap map with a fresh-address counter. Freeing a node removes it from the map.
- `Error::IO` and the `From<ParseIntError>` conversion of hw04 are not modelled, because no parser is present. `Syntax` is kept as a variant that no modelled operation produces.
- Rpn.DoAdd and Rpn.DoNeg (and through them Rpn.Eval) require that the `i32` result of `x + y` or `0 - x` does not overflow. The Rust code panics there in a debug build and wraps in a release build, and the model covers neither.
- Rpn.DoRand: the Rust code computes `x / 2`, not a random number. The model follows the code and uses Rust's truncating division.
- Bst: keys are integers rather than any `T: Ord`. `search` and `insert` are recursive functions that take the same branches as the Rust loops. `IntoIter`, `Iter` and `IterMut` share one model because they walk the same nodes. `iter_mut`'s ability to write through the yielded references is not modelled.
- BigNat.Min returns which argument it picked rather than a reference. BigNat.VecMin and VecOps.VecMin return a position rather than a reference.
- BigNat.Min and BigNat.VecMin state the value ordering for normalised numbers only. On unnormalised inputs the Rust `min` compares limb counts first, and the model follows that without relating it to values.
- The `PartialEq` impl of `BigInt` (`rust101/src/part05.rs:102-106`) is plain limb-vector equality. It is Dafny's `==` on the datatype and has no member of its own.
- VecOps: `vec_min` and `vec_sum` are generic. The model uses unbounded integers, so the `f32` call in `main` and `i32` overflow in `vec_sum` are not modelled.
- Deque.Valid leaves out "every allocated node is on the list". That property is the separate predicate `NoGarbage`, and Deque.NoGarbageKept proves it is preserved.
- Deque: the operations have no test-scenario member. The `test_push_pop` test is covered by the general pop and round-trip lemmas instead.
- Game: a hall holds the names of its rooms, not shared references to them. The panic in `Hall::other` becomes `None`, and `neighbors_string` propagates it.
- Sieve.SieveAsWritten follows a debug build: every `u32` overflow is a panic and becomes `None`. The wrap-around of a release build is not modelled.
- Sieve.SieveFromU32Overflows covers n ≥ 65538, and Sieve.AsWrittenAgrees covers n ≤ 65537, so every n has a verdict. For n = u32::MAX a different overflow (`j + i`) is proved. For 65538 ≤ n < u32::MAX the model shows that some overflow happens, not which one comes first. The allocation of `not_prime` is not modelled.

## Findings

| source | as written | input that shows it | evidently intended | confidence | as-written member | corrected member |
|---|---|---|---|---|---|---|
| hw01/src/problem3.rs:19 | `let mut j = i * i;` in `u32`, for every `i` the outer loop reaches that is not yet marked | n = 65538: the round for the prime i = 65537 computes 65537 * 65537 = 4295098369, which exceeds u32::MAX, and a debug build panics. Every n ≥ 65538 overflows somewhere (Sieve.AsWrittenOverflowsPast65537), though for larger n an earlier `j + i` can overflow first | the primes below n for every `u32` n, e.g. by computing `i * i` in `u64` or stopping the marking once i * i ≥ n | not executed | Sieve.AsWrittenOverflowsPast65537 | Sieve.SieveCorrect |
| hw01/src/problem3.rs:22 | `j = j + i;` in `u32`, with the loop test `j < n` | n = 4294967295 (u32::MAX): in the round for i = 2, j reaches 4294967294 < n, and then j + 2 overflows; a debug build panics, and a release build wraps j to 0 and never stops | the primes below n for every `u32` n, e.g. with j kept in `u64` | not executed | Sieve.AsWrittenOverflowsAtMax | Sieve.SieveCorrect |
