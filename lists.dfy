/**
 * Array.prototype.filter and a stable Array.prototype.sort by a numeric
 * key, the two array operations the views apply to lists of events.
 */
module Lists {

  /** `xs.filter(p)`: the elements that pass `p`, in their order. */
  function Keep<T>(xs: seq<T>, p: T -> bool): (r: seq<T>)
    ensures |r| <= |xs|
  {
    if xs == [] then []
    else
      var rest := Keep(xs[1..], p);
      if p(xs[0]) then [xs[0]] + rest else rest
  }

  /** An element is kept exactly when it is in the list and passes the test. */
  lemma {:induction false} KeepMembers<T(!new)>(xs: seq<T>, p: T -> bool)
    ensures forall x :: x in Keep(xs, p) <==> x in xs && p(x)
    decreases |xs|
  {
    if xs != [] {
      KeepMembers(xs[1..], p);
      assert forall x :: x in xs[1..] ==> x in xs;
      assert forall x :: x in xs ==> x == xs[0] || x in xs[1..];
    }
  }

  /** The filter keeps order: filtering two pieces and joining is filtering the whole. */
  lemma {:induction false} KeepConcat<T(!new)>(xs: seq<T>, ys: seq<T>, p: T -> bool)
    ensures Keep(xs + ys, p) == Keep(xs, p) + Keep(ys, p)
    decreases |xs|
  {
    if xs == [] {
      assert xs + ys == ys;
    } else {
      var zs := xs + ys;
      assert zs[0] == xs[0] && zs[1..] == xs[1..] + ys;
      KeepConcat(xs[1..], ys, p);
      if p(xs[0]) {
        assert Keep(zs, p) == [xs[0]] + Keep(zs[1..], p);
        assert Keep(xs, p) == [xs[0]] + Keep(xs[1..], p);
      } else {
        assert Keep(zs, p) == Keep(zs[1..], p);
        assert Keep(xs, p) == Keep(xs[1..], p);
      }
    }
  }

  /** When every element passes, the filter returns the list unchanged. */
  lemma {:induction false} KeepAll<T(!new)>(xs: seq<T>, p: T -> bool)
    requires forall x :: x in xs ==> p(x)
    ensures Keep(xs, p) == xs
    decreases |xs|
  {
    if xs != [] {
      assert forall x :: x in xs[1..] ==> x in xs;
      KeepAll(xs[1..], p);
    }
  }

  /** Filtering twice with the same test is filtering once. */
  lemma KeepIdempotent<T(!new)>(xs: seq<T>, p: T -> bool)
    ensures Keep(Keep(xs, p), p) == Keep(xs, p)
  {
    KeepMembers(xs, p);
    KeepAll(Keep(xs, p), p);
  }

  // ------------------------------------------------------------------ stable sort

  /** Keys never decrease along the list. */
  predicate SortedBy<T>(xs: seq<T>, key: T -> int) {
    forall i, j :: 0 <= i < j < |xs| ==> key(xs[i]) <= key(xs[j])
  }

  /** Inserting `x` after every element whose key is not above its own. */
  function Insert<T>(xs: seq<T>, x: T, key: T -> int): (r: seq<T>)
    requires SortedBy(xs, key)
    ensures SortedBy(r, key)
    ensures multiset(r) == multiset(xs) + multiset{x}
  {
    if xs == [] then [x]
    else
      var init, last := xs[..|xs| - 1], xs[|xs| - 1];
      if key(last) <= key(x) then xs + [x]
      else
        var r := Insert(init, x, key);
        assert xs == init + [last];
        assert forall m :: 0 <= m < |init| ==> key(init[m]) <= key(last) by {
          assert forall m :: 0 <= m < |init| ==> init[m] == xs[m];
        }
        UpperBound(r, init, x, key, key(last));
        r + [last]
  }

  /** A rearrangement of `init` and `x` stays below any bound of theirs. */
  lemma UpperBound<T>(r: seq<T>, init: seq<T>, x: T, key: T -> int, b: int)
    requires multiset(r) == multiset(init) + multiset{x}
    requires forall m :: 0 <= m < |init| ==> key(init[m]) <= b
    requires key(x) <= b
    ensures forall i :: 0 <= i < |r| ==> key(r[i]) <= b
  {
    forall i | 0 <= i < |r|
      ensures key(r[i]) <= b
    {
      assert r[i] in multiset(r);
      if r[i] != x {
        assert r[i] in multiset(init);
        var m :| 0 <= m < |init| && init[m] == r[i];
      }
    }
  }

  /**
   * Array.prototype.sort with the comparator `(a, b) => key(a) - key(b)`:
   * the sort is stable, so an insertion sort that puts each element after
   * its equals gives the same order.
   */
  function StableSort<T>(xs: seq<T>, key: T -> int): (r: seq<T>)
    ensures SortedBy(r, key)
    ensures multiset(r) == multiset(xs)
  {
    if xs == [] then []
    else
      var init, last := xs[..|xs| - 1], xs[|xs| - 1];
      assert xs == init + [last];
      Insert(StableSort(init, key), last, key)
  }

  /** The test "has key `k`". */
  function WithKey<T>(key: T -> int, k: int): T -> bool {
    (y: T) => key(y) == k
  }

  /** Insertion puts `x` behind every element of its own key. */
  lemma {:induction false} InsertStable<T(!new)>(xs: seq<T>, x: T, key: T -> int, k: int)
    requires SortedBy(xs, key)
    ensures Keep(Insert(xs, x, key), WithKey(key, k)) == Keep(xs, WithKey(key, k)) + Keep([x], WithKey(key, k))
    decreases |xs|
  {
    var p := WithKey(key, k);
    if xs == [] {
      KeepOne(x, p);
    } else if key(xs[|xs| - 1]) <= key(x) {
      KeepConcat(xs, [x], p);
    } else {
      var init, last := xs[..|xs| - 1], xs[|xs| - 1];
      InsertStable(init, x, key, k);
      InsertBefore(xs, x, key, k);
    }
  }

  /** The step of InsertStable where `x` goes before the last element. */
  lemma InsertBefore<T(!new)>(xs: seq<T>, x: T, key: T -> int, k: int)
    requires SortedBy(xs, key) && xs != [] && key(x) < key(xs[|xs| - 1])
    requires var init := xs[..|xs| - 1];
      Keep(Insert(init, x, key), WithKey(key, k)) == Keep(init, WithKey(key, k)) + Keep([x], WithKey(key, k))
    ensures Keep(Insert(xs, x, key), WithKey(key, k)) == Keep(xs, WithKey(key, k)) + Keep([x], WithKey(key, k))
  {
    var p := WithKey(key, k);
    var init, last := xs[..|xs| - 1], xs[|xs| - 1];
    InsertUnfold(xs, x, key);
    KeepConcat(Insert(init, x, key), [last], p);
    assert Keep(xs, p) == Keep(init, p) + Keep([last], p) by {
      assert xs == init + [last];
      KeepConcat(init, [last], p);
    }
    KeepOne(x, p);
    KeepOne(last, p);
    SwapEmpty(Keep(init, p), Keep([x], p), Keep([last], p));
  }

  lemma InsertUnfold<T>(xs: seq<T>, x: T, key: T -> int)
    requires SortedBy(xs, key) && xs != [] && key(x) < key(xs[|xs| - 1])
    ensures Insert(xs, x, key) == Insert(xs[..|xs| - 1], x, key) + [xs[|xs| - 1]]
  {
  }

  lemma SwapEmpty<T>(a: seq<T>, b: seq<T>, c: seq<T>)
    requires b == [] || c == []
    ensures a + b + c == a + c + b
  {
  }

  lemma KeepOne<T(!new)>(x: T, p: T -> bool)
    ensures Keep([x], p) == if p(x) then [x] else []
  {
    assert [x][1..] == [];
  }

  /** The sort is stable: the elements of any one key keep their relative order. */
  lemma {:induction false} SortStable<T(!new)>(xs: seq<T>, key: T -> int, k: int)
    ensures Keep(StableSort(xs, key), WithKey(key, k)) == Keep(xs, WithKey(key, k))
    decreases |xs|
  {
    if xs != [] {
      var init, last := xs[..|xs| - 1], xs[|xs| - 1];
      assert xs == init + [last];
      SortStable(init, key, k);
      InsertStable(StableSort(init, key), last, key, k);
      KeepConcat(init, [last], WithKey(key, k));
    }
  }
}
