/** `vec_min` and `vec_sum` of rust101 part 00, on vectors of integers.

    `vec_min` returns a reference into the vector; here it returns the
    index of the element it refers to. */
module VecOps {
  import opened Base

  /** Position i holds a smallest element of v, and no earlier position
      holds one. */
  predicate IsEarliestMin(v: seq<int>, i: nat)
  {
    && i < |v|
    && (forall k :: 0 <= k < |v| ==> v[i] <= v[k])
    && (forall k :: 0 <= k < i ==> v[i] < v[k])
  }

  /** Exactly one position is the earliest minimum. */
  lemma EarliestMinUnique(v: seq<int>, i: nat, j: nat)
    requires IsEarliestMin(v, i) && j < |v|
    ensures IsEarliestMin(v, j) <==> i == j
  {
    if j < i {
      assert v[i] < v[j];
    } else if i < j {
      assert v[i] <= v[j];
    }
  }

  /** `vec_min`: `None` for an empty vector; otherwise the running minimum
      starts at the first element and is replaced only by a strictly
      smaller one, so ties keep the earliest position. */
  method VecMin(v: seq<int>) returns (r: Option<nat>)
    ensures r.None? <==> |v| == 0
    ensures r.Some? ==> IsEarliestMin(v, r.value)
  {
    if |v| == 0 {
      return None;
    }
    var m := 0;
    var k := 0;
    while k < |v|
      invariant 0 <= k <= |v|
      invariant m < |v| && m <= k
      invariant forall x :: 0 <= x < k ==> v[m] <= v[x]
      invariant forall x :: 0 <= x < m ==> v[m] < v[x]
    {
      if v[k] < v[m] {
        m := k;
      }
      k := k + 1;
    }
    return Some(m);
  }

  /** The sum of v, adding from the first element to the last. */
  function Sum(v: seq<int>): int
  {
    if |v| == 0 then 0 else Sum(v[..|v| - 1]) + v[|v| - 1]
  }

  /** The sum splits over a concatenation. */
  lemma {:induction false} SumAppend(a: seq<int>, b: seq<int>)
    ensures Sum(a + b) == Sum(a) + Sum(b)
    decreases |b|
  {
    if |b| > 0 {
      SumAppend(a, b[..|b| - 1]);
      assert (a + b)[..|a + b| - 1] == a + b[..|b| - 1];
    } else {
      assert a + b == a;
    }
  }

  /** Adding from the first element to the last gives the same sum as
      peeling the first element off: the order `vec_sum` folds in does not
      matter. */
  lemma SumFirst(v: seq<int>)
    requires |v| > 0
    ensures Sum(v) == v[0] + Sum(v[1..])
  {
    SumAppend([v[0]], v[1..]);
    assert [v[0]] + v[1..] == v;
    assert [v[0]][..0] == [];
  }

  /** `vec_sum`: `None` for an empty vector, otherwise `Some` of the sum.
      The accumulator starts as the first element rather than a zero, which
      is why the result is optional. */
  method VecSum(v: seq<int>) returns (r: Option<int>)
    ensures r.None? <==> |v| == 0
    ensures r.Some? ==> r.value == Sum(v)
  {
    r := None;
    var k := 0;
    while k < |v|
      invariant 0 <= k <= |v|
      invariant r.None? <==> k == 0
      invariant r.Some? ==> r.value == Sum(v[..k])
    {
      assert v[..k + 1][..k] == v[..k];
      match r {
        case None =>
          r := Some(v[k]);
        case Some(acc) =>
          r := Some(v[k] + acc);
      }
      k := k + 1;
    }
    assert v[..k] == v;
  }

  /** The vector `main` reads: its minimum is -19 at index 3, its sum -6. */
  method MainScenario() returns (min: Option<nat>, sum: Option<int>)
    ensures min == Some(3) && sum == Some(-6)
  {
    var v := [3, 4, 6, -19];
    min := VecMin(v);
    EarliestMinUnique(v, min.value, 3);
    sum := VecSum(v);
    assert [3, 4][..1] == [3];
    assert Sum([3, 4]) == 7;
    assert [3, 4, 6][..2] == [3, 4];
    assert Sum([3, 4, 6]) == 13;
    assert v[..3] == [3, 4, 6];
  }
}
