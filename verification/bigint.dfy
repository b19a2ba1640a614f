/** The arbitrary-precision natural numbers of rust101 part 05: a `BigInt`
    is a little-endian vector of 64-bit limbs, and the number it denotes is
    `Value(data)`. A `BigInt` is normalised when its last (most
    significant) limb is not zero; zero is the empty vector. */
module BigNat {
  import opened Base

  /** The radix of one limb, 2^64. */
  const BASE: nat := U64_MAX + 1

  datatype BigInt = BigInt(data: seq<u64>)

  /** BASE^n. */
  function Pow(n: nat): (r: nat)
    ensures r >= 1
  {
    if n == 0 then 1 else BASE * Pow(n - 1)
  }

  /** The number denoted by a little-endian limb sequence. */
  function Value(s: seq<u64>): nat
  {
    if |s| == 0 then 0 else Value(s[..|s| - 1]) + s[|s| - 1] * Pow(|s| - 1)
  }

  predicate Normalized(b: BigInt)
  {
    |b.data| == 0 || b.data[|b.data| - 1] != 0
  }

  predicate AllNormalized(v: seq<BigInt>)
  {
    forall k :: 0 <= k < |v| ==> Normalized(v[k])
  }

  /** The limb at position k, reading past the end as zero. */
  function Limb(s: seq<u64>, k: nat): u64
  {
    if k < |s| then s[k] else 0
  }

  /** The first n limbs of s, padded with zero limbs. */
  function PadTo(s: seq<u64>, n: nat): (r: seq<u64>)
    ensures |r| == n
    ensures forall k :: 0 <= k < n ==> r[k] == Limb(s, k)
  {
    seq(n, k requires 0 <= k => Limb(s, k))
  }

  function Max(x: nat, y: nat): nat
  {
    if x >= y then x else y
  }

  /** Number of non-zero limbs. */
  function CountNonZero(s: seq<u64>): (r: nat)
    ensures r <= |s|
    ensures r == |s| <==> forall k :: 0 <= k < |s| ==> s[k] != 0
  {
    if |s| == 0 then 0
    else
      var front := s[..|s| - 1];
      assert forall k :: 0 <= k < |front| ==> front[k] == s[k];
      CountNonZero(front) + (if s[|s| - 1] != 0 then 1 else 0)
  }

  // ---------------------------------------------------------------------
  // Facts about Value

  lemma MulLeft(a: int, b: int, c: nat)
    requires a <= b
    ensures a * c <= b * c
  {
  }

  /** A sequence of n limbs denotes less than BASE^n. */
  lemma {:induction false} ValueBound(s: seq<u64>)
    ensures Value(s) < Pow(|s|)
  {
    if |s| > 0 {
      var n := |s| - 1;
      ValueBound(s[..n]);
      MulLeft(s[n], BASE - 1, Pow(n));
      assert (BASE - 1) * Pow(n) + Pow(n) == Pow(n + 1);
    }
  }

  lemma {:induction false} PowMono(i: nat, j: nat)
    requires i <= j
    ensures Pow(i) <= Pow(j)
  {
    if i < j {
      PowMono(i, j - 1);
    }
  }

  /** With normalised b, more limbs means a larger number. */
  lemma LongerIsLarger(a: seq<u64>, b: seq<u64>)
    requires |a| < |b| && b[|b| - 1] != 0
    ensures Value(a) < Value(b)
  {
    var n := |b| - 1;
    ValueBound(a);
    PowMono(|a|, n);
    MulLeft(1, b[n], Pow(n));
  }

  /** Two limb sequences of the same length that agree above position i
      compare as their limbs at i do. */
  lemma {:induction false} TopDifference(a: seq<u64>, b: seq<u64>, i: nat)
    requires |a| == |b| && i < |a|
    requires a[i] < b[i] && forall k :: i < k < |a| ==> a[k] == b[k]
    ensures Value(a) < Value(b)
  {
    var n := |a| - 1;
    var p := Pow(n);
    assert Value(a) == Value(a[..n]) + a[n] * p;
    assert Value(b) == Value(b[..n]) + b[n] * p;
    if i == n {
      ValueBound(a[..n]);
      MulLeft(a[n] + 1, b[n], p);
      assert (a[n] + 1) * p == a[n] * p + p;
    } else {
      assert a[n] == b[n];
      TopDifference(a[..n], b[..n], i);
    }
  }

  /** Appending zero limbs does not change the value. */
  lemma {:induction false} PadValue(s: seq<u64>, n: nat)
    requires |s| <= n
    ensures Value(PadTo(s, n)) == Value(s)
  {
    if n == |s| {
      assert PadTo(s, n) == s;
    } else {
      PadValue(s, n - 1);
      assert PadTo(s, n)[..n - 1] == PadTo(s, n - 1);
    }
  }

  // ---------------------------------------------------------------------
  // Operations

  /** `BigInt::new`. */
  function New(x: u64): (r: BigInt)
    ensures Normalized(r)
    ensures Value(r.data) == x
    ensures x == 0 <==> |r.data| == 0
  {
    if x == 0 then BigInt([]) else BigInt([x])
  }

  /** `BigInt::from_vec`: copy the limbs, then pop zero limbs off the top
      until a non-zero one is found (which is pushed back). */
  method FromVec(v: seq<u64>) returns (b: BigInt)
    ensures Normalized(b)
    ensures Value(b.data) == Value(v)
    ensures b.data <= v
    ensures forall k :: |b.data| <= k < |v| ==> v[k] == 0
  {
    var data: seq<u64> := [];
    for k := 0 to |v|
      invariant data == v[..k]
    {
      data := data + [v[k]];
    }
    assert data == v;
    while |data| > 0
      invariant data <= v
      invariant forall k :: |data| <= k < |v| ==> v[k] == 0
      invariant Value(data) == Value(v)
    {
      var val := data[|data| - 1];
      data := data[..|data| - 1];
      if val != 0 {
        data := data + [val];
        break;
      }
    }
    b := BigInt(data);
  }

  /** `BigInt::num_digits`: the number of limbs, enough base-2^64 digits
      to write the value down (exactly enough when normalised, see
      `DigitsOfValue`). */
  function NumDigits(b: BigInt): (n: nat)
    ensures n == |b.data|
    ensures Value(b.data) < Pow(n)
  {
    ValueBound(b.data);
    |b.data|
  }

  /** A normalised non-zero `BigInt` has exactly as many limbs as its value
      has base-2^64 digits. */
  lemma DigitsOfValue(b: BigInt)
    requires Normalized(b) && |b.data| > 0
    ensures Pow(NumDigits(b) - 1) <= Value(b.data) < Pow(NumDigits(b))
  {
    var n := |b.data|;
    ValueBound(b.data);
    MulLeft(1, b.data[n - 1], Pow(n - 1));
  }

  /** `BigInt::num_non_zero_digits`. */
  method NumNonZeroDigits(b: BigInt) returns (r: nat)
    ensures r == CountNonZero(b.data)
    ensures r <= |b.data|
  {
    r := 0;
    for k := 0 to |b.data|
      invariant r == CountNonZero(b.data[..k])
    {
      assert b.data[..k + 1][..k] == b.data[..k];
      if b.data[k] != 0 {
        r := r + 1;
      }
    }
    assert b.data[..|b.data|] == b.data;
  }

  /** `u64::wrapping_add`. */
  function WrappingAdd(x: u64, y: u64): (r: u64)
    ensures r == if x + y < BASE then x + y else x + y - BASE
  {
    (x + y) % BASE
  }

  /** `overflowing_add`: add two limbs and an incoming carry, returning the
      low limb and the outgoing carry. */
  function OverflowingAdd(a: u64, b: u64, carry: bool): (r: (u64, bool))
    ensures r.0 + (if r.1 then BASE else 0) == a + b + (if carry then 1 else 0)
  {
    var sum := WrappingAdd(a, b);
    var carryOut := sum <= a && b > 0 && a > 0;
    if carry then
      var sum' := WrappingAdd(sum, 1);
      (sum', carryOut || sum' == 0)
    else
      (sum, carryOut)
  }

  /** One step of the addition loop keeps the running-value invariant. */
  lemma AddStep(data: seq<u64>, i: nat, x: u64, y: u64, c: bool, sum: u64, c': bool, va: int, vb: int)
    requires |data| == i
    requires Value(data) + (if c then Pow(i) else 0) == va + vb
    requires sum + (if c' then BASE else 0) == x + y + (if c then 1 else 0)
    ensures Value(data + [sum]) + (if c' then Pow(i + 1) else 0)
         == (va + x * Pow(i)) + (vb + y * Pow(i))
  {
    var d := data + [sum];
    var p := Pow(i);
    assert d[..i] == data;
    assert Value(d) == Value(data) + sum * p;
    var cv := if c then 1 else 0;
    var cv' := if c' then 1 else 0;
    assert (if c' then Pow(i + 1) else 0) == (cv' * BASE) * p;
    assert (if c then p else 0) == cv * p;
    MulAdd(sum, cv' * BASE, p);
    MulAdd(x + y, cv, p);
    MulAdd(x, y, p);
  }

  lemma MulAdd(a: int, b: int, p: int)
    ensures (a + b) * p == a * p + b * p
  {
  }

  /** Padding to one more limb adds that limb at its weight. */
  lemma PadStep(s: seq<u64>, i: nat)
    ensures Value(PadTo(s, i + 1)) == Value(PadTo(s, i)) + Limb(s, i) * Pow(i)
  {
    assert PadTo(s, i + 1)[..i] == PadTo(s, i);
  }

  /** The state of the addition loop after i limbs: `data` and the carry
      denote the sum of the low i limbs of a and b, and a zero limb without
      a carry out can only come from two zero limbs. */
  ghost predicate AddInv(a: seq<u64>, b: seq<u64>, data: seq<u64>, carry: bool, i: nat)
  {
    && |data| == i
    && Value(data) + (if carry then Pow(i) else 0) == Value(PadTo(a, i)) + Value(PadTo(b, i))
    && (i > 0 && !carry && data[i - 1] == 0 ==> Limb(a, i - 1) == 0 && Limb(b, i - 1) == 0)
  }

  lemma AddInvStep(a: seq<u64>, b: seq<u64>, data: seq<u64>, carry: bool, i: nat)
    requires AddInv(a, b, data, carry, i)
    ensures var step := OverflowingAdd(Limb(a, i), Limb(b, i), carry);
      AddInv(a, b, data + [step.0], step.1, i + 1)
  {
    var x := Limb(a, i);
    var y := Limb(b, i);
    var step := OverflowingAdd(x, y, carry);
    AddStep(data, i, x, y, carry, step.0, step.1, Value(PadTo(a, i)), Value(PadTo(b, i)));
    PadStep(a, i);
    PadStep(b, i);
  }

  /** `&BigInt + &BigInt` (and `BigInt + BigInt`, which delegates to it):
      schoolbook addition with carry, one limb per position of the longer
      operand, plus a final limb 1 if a carry remains. */
  method Add(a: BigInt, b: BigInt) returns (r: BigInt)
    ensures Value(r.data) == Value(a.data) + Value(b.data)
    ensures Normalized(a) && Normalized(b) ==> Normalized(r)
    ensures |r.data| == Max(|a.data|, |b.data|) || |r.data| == Max(|a.data|, |b.data|) + 1
  {
    var maxLen := Max(|a.data|, |b.data|);
    var data: seq<u64> := [];
    var carry := false;
    for i := 0 to maxLen
      invariant AddInv(a.data, b.data, data, carry, i)
    {
      var x := if i < |a.data| then a.data[i] else 0;
      var y := if i < |b.data| then b.data[i] else 0;
      var step := OverflowingAdd(x, y, carry);
      AddInvStep(a.data, b.data, data, carry, i);
      data := data + [step.0];
      carry := step.1;
    }
    PadValue(a.data, maxLen);
    PadValue(b.data, maxLen);
    if carry {
      assert (data + [1])[..maxLen] == data;
      data := data + [1];
    }
    r := BigInt(data);
  }

  /** `Minimum::min` for `BigInt`: returns true when it picks `self` (a),
      false when it picks `b`. Fewer limbs wins; with equal limb counts the
      limbs are compared from the most significant one, and `self` wins a
      tie. */
  method Min(a: BigInt, b: BigInt) returns (pickSelf: bool)
    ensures |a.data| < |b.data| ==> pickSelf
    ensures |b.data| < |a.data| ==> !pickSelf
    ensures |a.data| == |b.data| ==> (pickSelf <==> Value(a.data) <= Value(b.data))
    ensures Normalized(a) && Normalized(b) ==> (pickSelf <==> Value(a.data) <= Value(b.data))
  {
    if |a.data| < |b.data| {
      if Normalized(b) {
        LongerIsLarger(a.data, b.data);
      }
      return true;
    } else if |b.data| < |a.data| {
      if Normalized(a) {
        LongerIsLarger(b.data, a.data);
      }
      return false;
    }
    var i := |a.data|;
    while i > 0
      invariant 0 <= i <= |a.data|
      invariant forall k :: i <= k < |a.data| ==> a.data[k] == b.data[k]
    {
      i := i - 1;
      if b.data[i] < a.data[i] {
        TopDifference(b.data, a.data, i);
        return false;
      } else if a.data[i] < b.data[i] {
        TopDifference(a.data, b.data, i);
        return true;
      }
    }
    assert a.data == b.data;
    return true;
  }

  /** `vec_min` over `BigInt`s: the position of the element the running
      `min` ends on, or `None` for an empty vector. */
  method VecMin(v: seq<BigInt>) returns (r: Option<nat>)
    ensures r.None? <==> |v| == 0
    ensures r.Some? ==> r.value < |v|
    ensures r.Some? && AllNormalized(v) ==>
      && (forall k :: 0 <= k < |v| ==> Value(v[r.value].data) <= Value(v[k].data))
      && (forall k :: 0 <= k < r.value ==> Value(v[r.value].data) < Value(v[k].data))
  {
    if |v| == 0 {
      return None;
    }
    var m := 0;
    for k := 0 to |v|
      invariant m < |v| && m <= k
      invariant AllNormalized(v) ==> forall j :: 0 <= j < k ==> Value(v[m].data) <= Value(v[j].data)
      invariant AllNormalized(v) ==> forall j :: 0 <= j < m ==> Value(v[m].data) < Value(v[j].data)
    {
      var keep := Min(v[m], v[k]);
      if !keep {
        m := k;
      }
    }
    return Some(m);
  }

  // ---------------------------------------------------------------------
  // The reverse limb iterator

  /** `Iter`: a borrowed limb vector and a cursor counting down. */
  datatype LimbIter = LimbIter(nums: seq<u64>, idx: nat)

  predicate ValidIter(it: LimbIter)
  {
    it.idx <= |it.nums|
  }

  /** `BigInt::iter`: the cursor starts past the most significant limb. */
  function Iter(b: BigInt): (it: LimbIter)
    ensures ValidIter(it) && it.nums == b.data && it.idx == |b.data|
  {
    LimbIter(b.data, |b.data|)
  }

  /** `Iterator::next`. */
  function Next(it: LimbIter): (r: (Option<u64>, LimbIter))
    requires ValidIter(it)
    ensures ValidIter(r.1) && r.1.nums == it.nums
    ensures it.idx == 0 <==> r.0.None?
    ensures r.0.Some? ==> r.1.idx + 1 == it.idx && r.0.value == it.nums[r.1.idx]
  {
    if it.idx == 0 then (None, it)
    else (Some(it.nums[it.idx - 1]), LimbIter(it.nums, it.idx - 1))
  }

  /** Everything `next` yields until it returns `None`. */
  function Drain(it: LimbIter): (out: seq<u64>)
    requires ValidIter(it)
    ensures |out| == it.idx
    ensures forall k :: 0 <= k < |out| ==> out[k] == it.nums[it.idx - 1 - k]
    decreases it.idx
  {
    var (x, rest) := Next(it);
    match x
    case None => []
    case Some(limb) => [limb] + Drain(rest)
  }

  /** The iterator yields every limb exactly once, most significant first. */
  lemma IterMostSignificantFirst(b: BigInt)
    ensures Drain(Iter(b)) == Reverse(b.data)
  {
  }
}
