/**
  Stable sort by a numeric key, largest key first: what `Array.prototype.sort`
  does with the comparator `(a, b) => key(b) - key(a)`. ECMAScript requires that
  sort to be stable, so elements with equal keys keep their input order. It is
  written here as insertion sort.
*/
module StableSort {

  /** No element has a larger key than the one before it. */
  ghost predicate SortedDesc<T>(xs: seq<T>, key: T -> real) {
    forall i, j :: 0 <= i < j < |xs| ==> key(xs[i]) >= key(xs[j])
  }

  /** The elements of `xs` whose key is exactly `k`, in their order in `xs`. */
  function WithKey<T>(xs: seq<T>, key: T -> real, k: real): seq<T> {
    if xs == [] then []
    else (if key(xs[0]) == k then [xs[0]] else []) + WithKey(xs[1..], key, k)
  }

  /**
    Inserts `x` into `ys`, which is sorted by descending key, before the first
    element whose key is not larger than `x`'s: after the larger keys and ahead
    of the equal ones.
  */
  function Insert<T>(x: T, ys: seq<T>, key: T -> real): (r: seq<T>)
    ensures |r| == |ys| + 1
  {
    if ys == [] || key(ys[0]) <= key(x) then [x] + ys
    else [ys[0]] + Insert(x, ys[1..], key)
  }

  /** Sorts by descending key; equal keys keep their input order. */
  function SortDesc<T>(xs: seq<T>, key: T -> real): (sorted: seq<T>)
    ensures |sorted| == |xs|
  {
    if xs == [] then [] else Insert(xs[0], SortDesc(xs[1..], key), key)
  }

  /** Picking the elements with one key distributes over concatenation. */
  lemma {:induction false} WithKeyAppend<T>(xs: seq<T>, ys: seq<T>, key: T -> real, k: real)
    ensures WithKey(xs + ys, key, k) == WithKey(xs, key, k) + WithKey(ys, key, k)
  {
    if xs == [] {
      assert xs + ys == ys;
    } else {
      var head := if key(xs[0]) == k then [xs[0]] else [];
      assert (xs + ys)[0] == xs[0];
      assert (xs + ys)[1..] == xs[1..] + ys;
      assert WithKey(xs + ys, key, k) == head + WithKey(xs[1..] + ys, key, k);
      WithKeyAppend(xs[1..], ys, key, k);
      assert WithKey(xs, key, k) == head + WithKey(xs[1..], key, k);
      assert head + (WithKey(xs[1..], key, k) + WithKey(ys, key, k))
          == (head + WithKey(xs[1..], key, k)) + WithKey(ys, key, k);
    }
  }

  /** Every element of `xs` has a key of at most `b`. */
  ghost predicate KeysAtMost<T>(xs: seq<T>, key: T -> real, b: real) {
    forall i :: 0 <= i < |xs| ==> key(xs[i]) <= b
  }

  lemma {:induction false} InsertKeysAtMost<T>(x: T, ys: seq<T>, key: T -> real, b: real)
    requires KeysAtMost(ys, key, b) && key(x) <= b
    ensures KeysAtMost(Insert(x, ys, key), key, b)
  {
    if !(ys == [] || key(ys[0]) <= key(x)) {
      InsertKeysAtMost(x, ys[1..], key, b);
      var r := Insert(x, ys, key);
      assert r == [ys[0]] + Insert(x, ys[1..], key);
      forall i | 0 < i < |r| ensures key(r[i]) <= b {
        assert r[i] == Insert(x, ys[1..], key)[i - 1];
      }
    }
  }

  lemma {:induction false} InsertSorted<T>(x: T, ys: seq<T>, key: T -> real)
    requires SortedDesc(ys, key)
    ensures SortedDesc(Insert(x, ys, key), key)
  {
    if !(ys == [] || key(ys[0]) <= key(x)) {
      var tail := Insert(x, ys[1..], key);
      InsertSorted(x, ys[1..], key);
      assert KeysAtMost(ys[1..], key, key(ys[0])) by {
        forall i | 0 <= i < |ys[1..]| ensures key(ys[1..][i]) <= key(ys[0]) {
          assert ys[1..][i] == ys[i + 1];
        }
      }
      InsertKeysAtMost(x, ys[1..], key, key(ys[0]));
      var r := Insert(x, ys, key);
      assert r == [ys[0]] + tail;
      forall i, j | 0 <= i < j < |r| ensures key(r[i]) >= key(r[j]) {
        assert r[j] == tail[j - 1];
        if i > 0 {
          assert r[i] == tail[i - 1];
        }
      }
    }
  }

  lemma {:induction false} InsertMultiset<T>(x: T, ys: seq<T>, key: T -> real)
    ensures multiset(Insert(x, ys, key)) == multiset(ys) + multiset{x}
  {
    if !(ys == [] || key(ys[0]) <= key(x)) {
      InsertMultiset(x, ys[1..], key);
      assert ys == [ys[0]] + ys[1..];
    }
  }

  lemma {:induction false} InsertWithKey<T>(x: T, ys: seq<T>, key: T -> real, k: real)
    ensures WithKey(Insert(x, ys, key), key, k) == WithKey([x] + ys, key, k)
  {
    if !(ys == [] || key(ys[0]) <= key(x)) {
      var tail := Insert(x, ys[1..], key);
      InsertWithKey(x, ys[1..], key, k);
      assert ([ys[0]] + tail)[1..] == tail;
      assert ([x] + ys)[1..] == ys;
      assert ([x] + ys[1..])[1..] == ys[1..];
    }
  }

  /**
    `SortDesc` orders by descending key, is a permutation of its input, and is
    stable: for every key value, the elements carrying it appear in the output
    in the same order as in the input.
  */
  lemma {:induction false} SortDescSpec<T>(xs: seq<T>, key: T -> real)
    ensures SortedDesc(SortDesc(xs, key), key)
    ensures multiset(SortDesc(xs, key)) == multiset(xs)
    ensures forall k :: WithKey(SortDesc(xs, key), key, k) == WithKey(xs, key, k)
  {
    if xs != [] {
      var tail := SortDesc(xs[1..], key);
      SortDescSpec(xs[1..], key);
      InsertSorted(xs[0], tail, key);
      InsertMultiset(xs[0], tail, key);
      assert xs == [xs[0]] + xs[1..];
      forall k
        ensures WithKey(SortDesc(xs, key), key, k) == WithKey(xs, key, k)
      {
        InsertWithKey(xs[0], tail, key, k);
        assert ([xs[0]] + tail)[1..] == tail;
      }
    }
  }
}
