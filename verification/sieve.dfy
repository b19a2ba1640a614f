/** The sieve of Eratosthenes of hw01 problem 3: all primes below `n`.

    The Rust loops are modelled as recursive functions, one step per
    iteration. `not_prime` is a sequence of booleans indexed by number.
    Two versions exist: `SieveAsWritten` does its arithmetic in `u32`
    like the Rust code and yields `None` where a debug build panics on
    overflow; `Sieve` does the same arithmetic on unbounded integers. */
module Sieve {
  import opened Base

  // ---------------------------------------------------------------------
  // Primes

  /** d is a positive divisor of x. */
  predicate Divides(d: nat, x: nat)
  {
    d > 0 && x % d == 0
  }

  predicate Prime(x: nat)
  {
    x >= 2 && forall d :: 2 <= d < x ==> !Divides(d, x)
  }

  /** The primes below n, in increasing order: the independent
      description the sieve is checked against. */
  function PrimesBelow(n: nat): seq<nat>
  {
    if n <= 2 then [] else PrimesBelow(n - 1) + (if Prime(n - 1) then [n - 1] else [])
  }

  /** `PrimesBelow(n)` is strictly increasing and holds exactly the primes
      below n. */
  lemma {:induction false} PrimesBelowSpec(n: nat)
    ensures var s := PrimesBelow(n);
      && (forall i, j :: 0 <= i < j < |s| ==> s[i] < s[j])
      && (forall x: nat :: x in s <==> Prime(x) && x < n)
  {
    if n > 2 {
      PrimesBelowSpec(n - 1);
      var s := PrimesBelow(n - 1);
      assert forall i :: 0 <= i < |s| ==> s[i] in s;
    }
  }

  /** The example in the doc comment of `sieve`. */
  lemma PrimesBelowSeven()
    ensures PrimesBelow(7) == [2, 3, 5]
  {
    assert Divides(2, 4) && Divides(2, 6);
    assert Prime(2) && Prime(3);
    assert !Divides(2, 5) && !Divides(3, 5) && !Divides(4, 5);
    assert Prime(5);
  }

  // ---------------------------------------------------------------------
  // Arithmetic facts

  /** x is divisible by i exactly when its remainder is zero, given the
      quotient and remainder explicitly. */
  lemma ModOfSplit(x: nat, i: nat, q: nat, r: nat)
    requires 0 <= r < i && x == q * i + r
    ensures x % i == r
  {
    var q' := x / i;
    var r' := x % i;
    assert (q' - q) * i == r - r';
    MulAwayFromZero(q' - q, i);
  }

  /** A nonzero multiple of i is at least i away from zero. */
  lemma MulAwayFromZero(a: int, i: nat)
    ensures a >= 1 ==> a * i >= i
    ensures a <= -1 ==> a * i + i <= 0
  {
  }

  lemma DividesTrans(e: nat, d: nat, k: nat)
    requires Divides(e, d) && Divides(d, k)
    ensures Divides(e, k)
  {
    var a := k / d;
    var b := d / e;
    assert k == d * a;
    assert d == e * b;
    assert k == (b * a) * e + 0 by {
      assert k == (e * b) * a;
    }
    ModOfSplit(k, e, b * a, 0);
  }

  /** 65537 has no divisor in [2, 256]. */
  lemma NoSmallFactor(d: nat)
    requires 2 <= d <= 256
    ensures 65537 % d != 0
  {
  }

  /** 65537 is prime: a divisor above 256 would leave a cofactor in
      [2, 256]. It is the least prime whose square exceeds `u32::MAX`. */
  lemma Prime65537()
    ensures Prime(65537)
    ensures 65537 * 65537 > U32_MAX
  {
    forall d | 2 <= d < 65537
      ensures !Divides(d, 65537)
    {
      if d <= 256 {
        NoSmallFactor(d);
      } else {
        var q := 65537 / d;
        var r := 65537 % d;
        assert 65537 == q * d + r;
        assert q <= 255 by {
          assert q * d <= 65537;
          assert 256 * d > 65537;
        }
        if q >= 2 {
          NoSmallFactor(q);
          ModOfSplit(d * q, q, d, 0);
        }
      }
    }
  }

  /** The least divisor of k above 1. */
  lemma SmallestDivisor(k: nat) returns (d: nat)
    requires k >= 2
    ensures 2 <= d <= k && Divides(d, k)
    ensures forall e :: 2 <= e < d ==> !Divides(e, k)
  {
    d := 2;
    while !Divides(d, k)
      invariant 2 <= d <= k
      invariant forall e :: 2 <= e < d ==> !Divides(e, k)
      decreases k - d
    {
      assert d < k by {
        ModOfSplit(k, k, 1, 0);
      }
      d := d + 1;
    }
  }

  /** A number of at least 2 is composite exactly when it has a prime
      divisor d with d * d <= k. */
  lemma CompositeWitness(k: nat)
    requires k >= 2
    ensures !Prime(k) <==> exists d :: 2 <= d && Prime(d) && d * d <= k && Divides(d, k)
  {
    if !Prime(k) {
      var d := SmallPrimeFactor(k);
    } else {
      forall d | 2 <= d && d * d <= k
        ensures !Divides(d, k)
      {
        assert d < d * d;
      }
    }
  }

  /** The least divisor of a composite k is a prime whose square is at
      most k. */
  lemma SmallPrimeFactor(k: nat) returns (d: nat)
    requires k >= 2 && !Prime(k)
    ensures 2 <= d && Prime(d) && d * d <= k && Divides(d, k)
  {
    d := SmallestDivisor(k);
    forall e | 2 <= e < d
      ensures !Divides(e, d)
    {
      if Divides(e, d) {
        DividesTrans(e, d, k);
      }
    }
    CofactorAtLeast(k, d);
  }

  /** The cofactor of the least divisor of a composite k is no smaller
      than that divisor. */
  lemma CofactorAtLeast(k: nat, d: nat)
    requires k >= 2 && !Prime(k) && 2 <= d && Divides(d, k)
    requires forall e :: 2 <= e < d ==> !Divides(e, k)
    ensures d * d <= k
  {
    assert d < k;
    var m := k / d;
    assert k == m * d;
    ModOfSplit(k, m, d, 0);
    assert m >= 2;
    assert Divides(m, k);
    assert m >= d;
    assert d * d <= m * d;
  }

  /** k has a prime divisor d below i with d * d <= k: after the rounds
      for every number below i, these are exactly the marked entries of
      `not_prime`. */
  ghost predicate Marked(k: nat, i: nat)
  {
    exists d :: 2 <= d < i && Prime(d) && d * d <= k && Divides(d, k)
  }

  /** Round i adds the multiples of i from i * i on, when i is prime. */
  lemma MarkedStep(k: nat, i: nat)
    ensures Marked(k, i + 1) <==> Marked(k, i) || (2 <= i && Prime(i) && i * i <= k && Divides(i, k))
  {
    if Marked(k, i + 1) && !Marked(k, i) {
      var d :| 2 <= d < i + 1 && Prime(d) && d * d <= k && Divides(d, k);
      assert d == i;
    }
  }

  /** When round i starts, i itself is marked exactly when it is
      composite. */
  lemma MarkedSelf(i: nat)
    requires i >= 2
    ensures Marked(i, i) <==> !Prime(i)
  {
    CompositeWitness(i);
    if !Prime(i) {
      var d :| 2 <= d && Prime(d) && d * d <= i && Divides(d, i);
      assert d < d * d;
    }
  }

  // ---------------------------------------------------------------------
  // The sieve on unbounded integers

  /** The inner `while j < n` loop: mark j, j + i, j + 2i, ... below n. */
  function Mark(np: seq<bool>, i: nat, j: nat): (r: seq<bool>)
    requires i >= 1
    ensures |r| == |np|
    decreases |np| - j
  {
    if j >= |np| then np else Mark(np[j := true], i, j + i)
  }

  /** The outer `for i in 2..n` loop from round i on, with the primes
      found so far in acc. */
  function SieveFrom(np: seq<bool>, i: nat, acc: seq<nat>): seq<nat>
    requires i >= 2
    decreases |np| - i
  {
    if i >= |np| then acc
    else if np[i] then SieveFrom(np, i + 1, acc)
    else SieveFrom(Mark(np, i, i * i), i + 1, acc + [i])
  }

  /** `sieve(n)` with its arithmetic on unbounded integers. */
  function Sieve(n: u32): seq<nat>
  {
    if n < 2 then [] else SieveFrom(seq(n, _ => false), 2, [])
  }

  /** The inner loop marks exactly the multiples of i from j on. */
  lemma {:induction false} MarkCorrect(np: seq<bool>, i: nat, j: nat)
    requires i >= 2 && j >= i * i && Divides(i, j)
    requires forall k :: 0 <= k < |np| ==> (np[k] <==> Marked(k, i) || (i * i <= k < j && Divides(i, k)))
    ensures forall k :: 0 <= k < |np| ==> (Mark(np, i, j)[k] <==> Marked(k, i) || (i * i <= k && Divides(i, k)))
    decreases |np| - j
  {
    if j < |np| {
      var np' := np[j := true];
      ModOfSplit(j + i, i, j / i + 1, 0);
      forall k | 0 <= k < |np|
        ensures np'[k] <==> Marked(k, i) || (i * i <= k < j + i && Divides(i, k))
      {
        if j < k < j + i {
          ModOfSplit(k, i, j / i, k - j);
        }
      }
      MarkCorrect(np', i, j + i);
    }
  }

  /** Each round keeps `acc` equal to the primes below i and the marks
      equal to `Marked(_, i)`. */
  lemma {:induction false} SieveFromCorrect(np: seq<bool>, i: nat, acc: seq<nat>)
    requires 2 <= i <= |np|
    requires acc == PrimesBelow(i)
    requires forall k :: 0 <= k < |np| ==> (np[k] <==> Marked(k, i))
    ensures SieveFrom(np, i, acc) == PrimesBelow(|np|)
    decreases |np| - i
  {
    if i < |np| {
      if np[i] {
        CompositeRound(np, i, acc);
        SieveFromCorrect(np, i + 1, acc);
      } else {
        PrimeRound(np, i, acc);
        SieveFromCorrect(Mark(np, i, i * i), i + 1, acc + [i]);
      }
    }
  }

  /** A marked i is composite: the round adds nothing. */
  lemma CompositeRound(np: seq<bool>, i: nat, acc: seq<nat>)
    requires 2 <= i < |np| && np[i]
    requires acc == PrimesBelow(i)
    requires forall k :: 0 <= k < |np| ==> (np[k] <==> Marked(k, i))
    ensures acc == PrimesBelow(i + 1)
    ensures forall k :: 0 <= k < |np| ==> (np[k] <==> Marked(k, i + 1))
  {
    MarkedSelf(i);
    forall k | 0 <= k < |np|
      ensures np[k] <==> Marked(k, i + 1)
    {
      MarkedStep(k, i);
    }
  }

  /** An unmarked i is prime: it joins the result and its multiples are
      marked. */
  lemma PrimeRound(np: seq<bool>, i: nat, acc: seq<nat>)
    requires 2 <= i < |np| && !np[i]
    requires acc == PrimesBelow(i)
    requires forall k :: 0 <= k < |np| ==> (np[k] <==> Marked(k, i))
    ensures acc + [i] == PrimesBelow(i + 1)
    ensures forall k :: 0 <= k < |np| ==> (Mark(np, i, i * i)[k] <==> Marked(k, i + 1))
  {
    MarkedSelf(i);
    PrimeRoundMarks(np, i);
  }

  lemma PrimeRoundMarks(np: seq<bool>, i: nat)
    requires 2 <= i && Prime(i)
    requires forall k :: 0 <= k < |np| ==> (np[k] <==> Marked(k, i))
    ensures forall k :: 0 <= k < |np| ==> (Mark(np, i, i * i)[k] <==> Marked(k, i + 1))
  {
    var sq := i * i;
    ModOfSplit(sq, i, i, 0);
    MarkCorrect(np, i, sq);
    var np' := Mark(np, i, sq);
    forall k | 0 <= k < |np|
      ensures np'[k] <==> Marked(k, i + 1)
    {
      MarkedStep(k, i);
    }
  }

  /** The sieve returns exactly the primes below n, in increasing order. */
  lemma SieveCorrect(n: u32)
    ensures Sieve(n) == PrimesBelow(n)
  {
    if n >= 2 {
      SieveFromCorrect(seq(n, _ => false), 2, []);
    }
  }

  // ---------------------------------------------------------------------
  // The sieve as written, in u32

  /** The inner loop in `u32`: `None` when `j = j + i` overflows, which
      panics in a debug build. */
  function MarkU32(np: seq<bool>, i: nat, j: nat): (r: Option<seq<bool>>)
    requires i >= 1
    ensures r.Some? ==> |r.value| == |np|
    decreases |np| - j
  {
    if j >= |np| then Some(np)
    else if j + i > U32_MAX then None
    else MarkU32(np[j := true], i, j + i)
  }

  /** The outer loop in `u32`: `None` when `i * i` or the inner loop
      overflows. */
  function SieveFromU32(np: seq<bool>, i: nat, acc: seq<nat>): Option<seq<nat>>
    requires i >= 2
    decreases |np| - i
  {
    if i >= |np| then Some(acc)
    else if np[i] then SieveFromU32(np, i + 1, acc)
    else if i * i > U32_MAX then None
    else match MarkU32(np, i, i * i)
      case None => None
      case Some(np') => SieveFromU32(np', i + 1, acc + [i])
  }

  /** `sieve(n)` exactly as written: `None` stands for an overflow panic. */
  function SieveAsWritten(n: u32): Option<seq<nat>>
  {
    if n < 2 then Some([]) else SieveFromU32(seq(n, _ => false), 2, [])
  }

  lemma {:induction false} MarkU32Agrees(np: seq<bool>, i: nat, j: nat)
    requires i >= 1 && |np| + i <= U32_MAX + 1
    ensures MarkU32(np, i, j) == Some(Mark(np, i, j))
    decreases |np| - j
  {
    if j < |np| {
      MarkU32Agrees(np[j := true], i, j + i);
    }
  }

  /** While n <= 65537, every round the `u32` code reaches is for a
      number whose square fits: the one candidate above 65535 is 65536,
      which is even and so already marked when its round comes. */
  lemma {:induction false} SieveFromU32Agrees(np: seq<bool>, i: nat, acc: seq<nat>)
    requires 2 <= i <= |np| <= 0x1_0001
    requires forall k :: 0 <= k < |np| ==> (np[k] <==> Marked(k, i))
    ensures SieveFromU32(np, i, acc) == Some(SieveFrom(np, i, acc))
    decreases |np| - i
  {
    if i < |np| {
      MarkedSelf(i);
      if np[i] {
        CompositeRound(np, i, PrimesBelow(i));
        SieveFromU32Agrees(np, i + 1, acc);
      } else {
        assert i <= 0xFFFF by {
          if i == 0x1_0000 {
            assert Divides(2, i);
          }
        }
        MulMono(i, 0xFFFF);
        MarkU32Agrees(np, i, i * i);
        PrimeRoundMarks(np, i);
        SieveFromU32Agrees(Mark(np, i, i * i), i + 1, acc + [i]);
      }
    }
  }

  lemma MulMono(a: nat, b: nat)
    requires a <= b
    ensures a * a <= b * b
  {
    assert a * a <= a * b <= b * b;
  }

  /** Up to n = 65537 the `u32` arithmetic never overflows and the sieve
      as written returns what the unbounded one does. */
  lemma AsWrittenAgrees(n: u32)
    requires n <= 0x1_0001
    ensures SieveAsWritten(n) == Some(Sieve(n))
  {
    if n >= 2 {
      SieveFromU32Agrees(seq(n, _ => false), 2, []);
    }
  }

  /** With i = 2 and n odd, the inner loop runs j through the even numbers
      up to n - 1 and then overflows. */
  lemma {:induction false} MarkU32OverflowsAtMax(np: seq<bool>, j: nat)
    requires |np| == U32_MAX && j % 2 == 0 && j <= U32_MAX
    ensures MarkU32(np, 2, j) == None
    decreases U32_MAX - j
  {
    if j + 2 <= U32_MAX {
      MarkU32OverflowsAtMax(np[j := true], j + 2);
    }
  }

  /** For n = u32::MAX the sieve as written overflows in its first round,
      although every prime below n fits in a `u32`. */
  lemma AsWrittenOverflowsAtMax()
    ensures SieveAsWritten(U32_MAX) == None
    ensures |Sieve(U32_MAX)| > 0
  {
    var np := seq(U32_MAX, _ => false);
    MarkU32OverflowsAtMax(np, 4);
    SieveCorrect(U32_MAX);
    PrimesBelowSpec(U32_MAX);
    assert Prime(2);
    assert 2 in PrimesBelow(U32_MAX);
  }

  /** `MarkU32` either overflows or marks what `Mark` marks. */
  lemma {:induction false} MarkU32NoneOrAgrees(np: seq<bool>, i: nat, j: nat)
    requires i >= 1
    ensures MarkU32(np, i, j) == None || MarkU32(np, i, j) == Some(Mark(np, i, j))
    decreases |np| - j
  {
    if j < |np| && j + i <= U32_MAX {
      MarkU32NoneOrAgrees(np[j := true], i, j + i);
    }
  }

  /** From any round up to 65537 on, with n > 65537, the sieve as written
      overflows: if no inner loop does earlier, `i * i` does when the round
      for the prime 65537 begins. */
  lemma {:induction false} SieveFromU32Overflows(np: seq<bool>, i: nat, acc: seq<nat>)
    requires 2 <= i <= 65537 < |np|
    requires forall k :: 0 <= k < |np| ==> (np[k] <==> Marked(k, i))
    ensures SieveFromU32(np, i, acc) == None
    decreases 65537 - i
  {
    MarkedSelf(i);
    if i == 65537 {
      Prime65537();
    } else if np[i] {
      CompositeRound(np, i, PrimesBelow(i));
      SieveFromU32Overflows(np, i + 1, acc);
    } else {
      assert i <= 65535 by {
        if i == 65536 {
          assert Divides(2, i);
        }
      }
      MulMono(i, 65535);
      MarkU32NoneOrAgrees(np, i, i * i);
      if MarkU32(np, i, i * i).Some? {
        PrimeRoundMarks(np, i);
        SieveFromU32Overflows(Mark(np, i, i * i), i + 1, acc + [i]);
      }
    }
  }

  /** For every n above 65537 the sieve as written overflows, at the
      latest on `i * i` for i = 65537, a prime the result should list. */
  lemma AsWrittenOverflowsPast65537(n: u32)
    requires n > 65537
    ensures SieveAsWritten(n) == None
    ensures 65537 in Sieve(n)
  {
    SieveFromU32Overflows(seq(n, _ => false), 2, []);
    SieveCorrect(n);
    PrimesBelowSpec(n);
    Prime65537();
  }
}
