/** The binary search tree of hw03 (whose `new`, `insert` and `search` are
    line for line those of hw02). Keys are integers here; the Rust tree is
    generic over `T: Ord`.

    The Rust `insert` and `search` walk a cursor down from the root in a
    loop; the recursive functions below take the same branch at every node
    the loop visits and stop where it stops. */
module Bst {
  import opened Base

  datatype Tree = Nil | Node(val: int, left: Tree, right: Tree)

  /** The keys stored anywhere in the tree. */
  function Contents(t: Tree): set<int>
  {
    match t
    case Nil => {}
    case Node(x, l, r) => Contents(l) + {x} + Contents(r)
  }

  /** The search-tree ordering: left keys < node key < right keys. */
  predicate Ordered(t: Tree)
  {
    match t
    case Nil => true
    case Node(x, l, r) =>
      && Ordered(l) && Ordered(r)
      && (forall y :: y in Contents(l) ==> y < x)
      && (forall y :: y in Contents(r) ==> x < y)
  }

  /** `BST::new`. */
  function New(): (t: Tree)
    ensures Contents(t) == {} && Ordered(t)
  {
    Nil
  }

  /** `BST::search`: follow the ordering from the root. */
  function Search(t: Tree, v: int): (found: bool)
    ensures found ==> v in Contents(t)
  {
    match t
    case Nil => false
    case Node(x, l, r) =>
      if v == x then true
      else if v < x then Search(l, v)
      else Search(r, v)
  }

  /** `BST::insert`: the new tree and whether the key was added. An equal
      key stops the walk with `false`; otherwise the key becomes a leaf
      where the walk falls off the tree. */
  function Insert(t: Tree, v: int): (r: (Tree, bool))
    ensures r.1 <==> !Search(t, v)
    ensures !r.1 ==> r.0 == t
    ensures Contents(r.0) == Contents(t) + {v}
    ensures Ordered(t) ==> Ordered(r.0)
  {
    match t
    case Nil => (Node(v, Nil, Nil), true)
    case Node(x, l, r) =>
      if v == x then (t, false)
      else if v < x then
        var (l', added) := Insert(l, v);
        (Node(x, l', r), added)
      else
        var (r', added) := Insert(r, v);
        (Node(x, l, r'), added)
  }

  /** On an ordered tree, `search` finds exactly the stored keys. */
  lemma {:induction false} SearchComplete(t: Tree, v: int)
    requires Ordered(t)
    ensures Search(t, v) <==> v in Contents(t)
  {
    match t
    case Nil =>
    case Node(x, l, r) =>
      if v < x {
        SearchComplete(l, v);
      } else if v > x {
        SearchComplete(r, v);
      }
  }

  /** On an ordered tree, `insert` reports `false` exactly for a key that
      is already present, and afterwards the key and all earlier keys are
      found by `search`. */
  lemma InsertThenSearch(t: Tree, v: int, w: int)
    requires Ordered(t)
    ensures Insert(t, v).1 <==> v !in Contents(t)
    ensures Search(Insert(t, v).0, v)
    ensures Search(t, w) ==> Search(Insert(t, v).0, w)
  {
    SearchComplete(t, v);
    SearchComplete(t, w);
    SearchComplete(Insert(t, v).0, v);
    SearchComplete(Insert(t, v).0, w);
  }

  /** The `basics` test: 2 is added once (a second insert is refused),
      then 3, 1, 8 and 7, and every key added is found. */
  lemma BasicsScenario()
    ensures !Search(New(), 2)
    ensures var (t1, a1) := Insert(New(), 2);
      && a1 && Search(t1, 2)
      && var (t2, a2) := Insert(t1, 2);
      && !a2 && t2 == t1
      && var (t3, a3) := Insert(t2, 3);
      && a3 && Search(t3, 2) && Search(t3, 3)
      && var (t4, a4) := Insert(t3, 1);
      && var (t5, a5) := Insert(t4, 8);
      && var (t6, a6) := Insert(t5, 7);
      && a4 && a5 && a6
      && Search(t6, 1) && Search(t6, 2) && Search(t6, 3) && Search(t6, 7)
  {
  }

  // ---------------------------------------------------------------------
  // Iterators

  /** The keys met walking from the root along right children only. */
  function RightSpine(t: Tree): seq<int>
  {
    match t
    case Nil => []
    case Node(x, _, r) => [x] + RightSpine(r)
  }

  /** The state shared by `IntoIter`, `Iter` and `IterMut`: the node the
      next call will yield from. All three advance to the RIGHT child only,
      so they visit the root's right spine, not the whole tree. */
  datatype SpineIter = SpineIter(next: Tree)

  /** `BST::into_iter`, `BST::iter` and `BST::iter_mut`. */
  function Iter(t: Tree): (it: SpineIter)
    ensures Drain(it) == RightSpine(t)
  {
    SpineIter(t)
  }

  /** `next` of all three iterators. */
  function Next(it: SpineIter): (r: (Option<int>, SpineIter))
    ensures it.next.Nil? <==> r.0.None?
    ensures r.0.Some? ==> r.0.value == it.next.val && r.1.next == it.next.right
  {
    match it.next
    case Nil => (None, it)
    case Node(x, _, right) => (Some(x), SpineIter(right))
  }

  /** Everything the iterator yields until it returns `None`. */
  function Drain(it: SpineIter): (out: seq<int>)
    ensures out == RightSpine(it.next)
    decreases it.next
  {
    var (x, rest) := Next(it);
    match x
    case None => []
    case Some(v) => [v] + Drain(rest)
  }

  /** On an ordered tree, the iterators yield stored keys in strictly
      increasing order, starting at the root and ending at the largest key,
      but they skip every left subtree along the way. */
  lemma {:induction false} SpineProperties(t: Tree)
    requires Ordered(t)
    ensures var s := Drain(Iter(t));
      && (forall i, j :: 0 <= i < j < |s| ==> s[i] < s[j])
      && (forall i :: 0 <= i < |s| ==> s[i] in Contents(t))
      && (t.Node? ==> |s| > 0 && s[0] == t.val && forall y :: y in Contents(t) ==> y <= s[|s| - 1])
  {
    match t
    case Nil =>
    case Node(x, l, r) =>
      SpineProperties(r);
      var s := Drain(Iter(t));
      var sr := Drain(Iter(r));
      assert s == [x] + sr;
      if r.Nil? {
        assert s == [x];
      } else {
        assert sr[|sr| - 1] == s[|s| - 1];
      }
  }

  /** The `iter` tests: inserting 1, 2, 3 yields 1, 2, 3, since each key
      becomes the right child of the previous one. */
  lemma IterAfterAscendingInserts()
    ensures Drain(Iter(Insert(Insert(Insert(New(), 1).0, 2).0, 3).0)) == [1, 2, 3]
  {
  }

  /** Inserting 2 then 1 stores both keys, yet the iterators yield only 2. */
  lemma IterSkipsLeftSubtree()
    ensures var t := Insert(Insert(New(), 2).0, 1).0;
      Contents(t) == {1, 2} && Drain(Iter(t)) == [2]
  {
  }
}
