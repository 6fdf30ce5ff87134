/**
 * `order by <text column> asc|desc`: an insertion sort on a text key in code-point order.
 * SQL leaves the relative order of rows with equal keys open; this model keeps them in table
 * order when ascending, and descending order is the reverse of ascending order.
 */
module Sorting {
  import opened Text

  ghost predicate SortedBy<T>(xs: seq<T>, key: T -> string) {
    forall i, j :: 0 <= i < j < |xs| ==> LessEq(key(xs[i]), key(xs[j]))
  }

  ghost predicate SortedDescendingBy<T>(xs: seq<T>, key: T -> string) {
    forall i, j :: 0 <= i < j < |xs| ==> LessEq(key(xs[j]), key(xs[i]))
  }

  lemma ConsSorted<T>(a: T, xs: seq<T>, key: T -> string)
    requires SortedBy(xs, key)
    requires xs != [] ==> LessEq(key(a), key(xs[0]))
    ensures SortedBy([a] + xs, key)
  {
    forall j | 0 <= j < |xs|
      ensures LessEq(key(a), key(xs[j]))
    {
      if j > 0 {
        LessEqTransitive(key(a), key(xs[0]), key(xs[j]));
      }
    }
  }

  /** Put `x` into the sorted `xs`, after the elements whose key is smaller than its own. */
  function Insert<T>(x: T, xs: seq<T>, key: T -> string): (r: seq<T>)
    requires SortedBy(xs, key)
    ensures SortedBy(r, key)
    ensures multiset(r) == multiset(xs) + multiset{x}
    ensures r[0] == x || (xs != [] && r[0] == xs[0])
    decreases |xs|
  {
    if xs == [] then [x]
    else if LessEq(key(x), key(xs[0])) then
      ConsSorted(x, xs, key);
      [x] + xs
    else
      var rest := Insert(x, xs[1..], key);
      LessEqTotal(key(x), key(xs[0]));
      assert xs[1..] != [] ==> LessEq(key(xs[0]), key(xs[1]));
      ConsSorted(xs[0], rest, key);
      assert xs == [xs[0]] + xs[1..];
      [xs[0]] + rest
  }

  /** The elements of `xs` in ascending order of `key`: sorted, and a permutation of `xs`. */
  function SortBy<T>(xs: seq<T>, key: T -> string): (r: seq<T>)
    ensures SortedBy(r, key)
    ensures multiset(r) == multiset(xs)
    ensures |r| == |xs|
    decreases |xs|
  {
    if xs == [] then []
    else
      assert xs == [xs[0]] + xs[1..];
      Insert(xs[0], SortBy(xs[1..], key), key)
  }

  function Reverse<T>(xs: seq<T>): (r: seq<T>)
    ensures |r| == |xs|
    ensures forall i :: 0 <= i < |xs| ==> r[i] == xs[|xs| - 1 - i]
  {
    seq(|xs|, i requires 0 <= i < |xs| => xs[|xs| - 1 - i])
  }

  lemma {:induction false} ReverseMultiset<T>(xs: seq<T>)
    ensures multiset(Reverse(xs)) == multiset(xs)
    decreases |xs|
  {
    if xs != [] {
      ReverseMultiset(xs[1..]);
      assert Reverse(xs) == Reverse(xs[1..]) + [xs[0]];
      assert xs == [xs[0]] + xs[1..];
    }
  }

  /** The elements of `xs` in descending order of `key`: sorted, and a permutation of `xs`. */
  function SortDescendingBy<T>(xs: seq<T>, key: T -> string): (r: seq<T>)
    ensures SortedDescendingBy(r, key)
    ensures multiset(r) == multiset(xs)
    ensures |r| == |xs|
  {
    var up := SortBy(xs, key);
    ReverseMultiset(up);
    Reverse(up)
  }

  /** No two items share a key. */
  ghost predicate DistinctBy<T>(xs: seq<T>, key: T -> string) {
    forall i, j :: 0 <= i < j < |xs| ==> key(xs[i]) != key(xs[j])
  }

  /** Items with distinct keys occur at most once each. */
  lemma {:induction false} DistinctOnce<T>(c: seq<T>, key: T -> string, v: T)
    requires DistinctBy(c, key)
    ensures multiset(c)[v] <= 1
  {
    if c != [] {
      var tail := c[1..];
      assert c == [c[0]] + tail;
      assert DistinctBy(tail, key) by {
        forall i, j | 0 <= i < j < |tail| ensures key(tail[i]) != key(tail[j]) {
          assert tail[i] == c[i + 1] && tail[j] == c[j + 1];
        }
      }
      DistinctOnce(tail, key, v);
      if c[0] == v {
        forall k | 0 <= k < |tail| ensures tail[k] != v {
          assert tail[k] == c[k + 1];
        }
        assert multiset(tail)[v] == 0;
      }
    }
  }

  /** An item at two positions occurs at least twice. */
  lemma TwoPositions<T>(o: seq<T>, i: nat, j: nat)
    requires i < j < |o|
    ensures o[i] == o[j] ==> multiset(o)[o[i]] >= 2
  {
    if o[i] == o[j] {
      assert o == o[..i] + [o[i]] + o[i + 1..j] + [o[j]] + o[j + 1..];
    }
  }

  /** A reordering of items with distinct keys still has distinct keys. */
  lemma PermutationDistinct<T>(o: seq<T>, c: seq<T>, key: T -> string)
    requires multiset(o) == multiset(c) && DistinctBy(c, key)
    ensures DistinctBy(o, key)
  {
    forall i, j | 0 <= i < j < |o| ensures key(o[i]) != key(o[j]) {
      DistinctOnce(c, key, o[i]);
      TwoPositions(o, i, j);
      assert o[i] in multiset(c) && o[j] in multiset(c);
      var a :| 0 <= a < |c| && c[a] == o[i];
      var b :| 0 <= b < |c| && c[b] == o[j];
      assert a != b;
    }
  }
}
