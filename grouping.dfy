/**
 * `select key, sum(value) ... group by key` and `select key, min(text) ... group by key`: one
 * row per distinct key, holding the sum, or the least text, of that key. SQL leaves the order
 * of the groups open; this model lists them in the order their keys first occur.
 */
module Grouping {
  import opened Text

  /** The sum of the values paired with `k` in `items`. */
  function SumFor<K(==)>(items: seq<(K, int)>, k: K): int
    decreases |items|
  {
    if items == [] then 0
    else
      var last := items[|items| - 1];
      SumFor(items[..|items| - 1], k) + (if last.0 == k then last.1 else 0)
  }

  function KeysOf<K, V>(items: seq<(K, V)>): set<K> {
    set i | 0 <= i < |items| :: items[i].0
  }

  ghost predicate DistinctKeys<K, V>(gs: seq<(K, V)>) {
    forall i, j :: 0 <= i < j < |gs| ==> gs[i].0 != gs[j].0
  }

  lemma KeysOfCons<K, V>(a: (K, V), rest: seq<(K, V)>)
    ensures KeysOf([a] + rest) == {a.0} + KeysOf(rest)
  {
    var r := [a] + rest;
    forall x ensures x in KeysOf(r) <==> x in {a.0} + KeysOf(rest) {
      if x in KeysOf(r) {
        var i :| 0 <= i < |r| && r[i].0 == x;
        if i > 0 {
          assert rest[i - 1].0 == x;
        }
      }
      if x == a.0 {
        assert r[0].0 == x;
      }
      if x in KeysOf(rest) {
        var i :| 0 <= i < |rest| && rest[i].0 == x;
        assert r[i + 1].0 == x;
      }
    }
  }

  lemma KeysOfSnoc<K, V>(front: seq<(K, V)>, a: (K, V))
    ensures KeysOf(front + [a]) == KeysOf(front) + {a.0}
  {
    var r := front + [a];
    forall x ensures x in KeysOf(r) <==> x in KeysOf(front) + {a.0} {
      if x in KeysOf(r) {
        var i :| 0 <= i < |r| && r[i].0 == x;
        if i < |front| {
          assert front[i].0 == x;
        }
      }
      if x == a.0 {
        assert r[|front|].0 == x;
      }
      if x in KeysOf(front) {
        var i :| 0 <= i < |front| && front[i].0 == x;
        assert r[i].0 == x;
      }
    }
  }

  /** A group whose key the others lack can be put in front of distinct groups. */
  lemma DistinctKeysCons<K, V>(a: (K, V), rest: seq<(K, V)>)
    requires DistinctKeys(rest) && a.0 !in KeysOf(rest)
    ensures DistinctKeys([a] + rest)
  {
    var r := [a] + rest;
    forall i, j | 0 <= i < j < |r| ensures r[i].0 != r[j].0 {
      assert r[j] == rest[j - 1] && rest[j - 1].0 in KeysOf(rest);
      if i > 0 {
        assert r[i] == rest[i - 1];
      }
    }
  }

  lemma HeadKeyNotInTail<K, V>(gs: seq<(K, V)>)
    requires DistinctKeys(gs) && gs != []
    ensures gs[0].0 !in KeysOf(gs[1..])
  {
    forall i | 0 <= i < |gs[1..]| ensures gs[1..][i].0 != gs[0].0 {
      assert gs[1..][i] == gs[i + 1];
    }
  }

  /** The value held for `k` in a list of groups, 0 when there is none. */
  function ValueOf<K(==)>(gs: seq<(K, int)>, k: K): int
    decreases |gs|
  {
    if gs == [] then 0 else if gs[0].0 == k then gs[0].1 else ValueOf(gs[1..], k)
  }

  lemma {:induction false} ValueOfAt<K>(gs: seq<(K, int)>, i: nat)
    requires DistinctKeys(gs) && i < |gs|
    ensures ValueOf(gs, gs[i].0) == gs[i].1
    decreases |gs|
  {
    if i > 0 {
      ValueOfAt(gs[1..], i - 1);
    }
  }

  lemma {:induction false} ValueOfAbsent<K>(gs: seq<(K, int)>, k: K)
    requires k !in KeysOf(gs)
    ensures ValueOf(gs, k) == 0
    decreases |gs|
  {
    if gs != [] {
      KeysOfCons(gs[0], gs[1..]);
      assert [gs[0]] + gs[1..] == gs;
      ValueOfAbsent(gs[1..], k);
    }
  }

  /** Add one item to the groups: into the group of its key, or as a new group at the end. */
  function AddItem<K(==,!new)>(gs: seq<(K, int)>, item: (K, int)): (r: seq<(K, int)>)
    requires DistinctKeys(gs)
    ensures DistinctKeys(r)
    ensures KeysOf(r) == KeysOf(gs) + {item.0}
    ensures forall k :: ValueOf(r, k) == ValueOf(gs, k) + (if k == item.0 then item.1 else 0)
    decreases |gs|
  {
    if gs == [] then
      assert KeysOf([item]) == {item.0} by {
        assert [item][0].0 == item.0;
      }
      [item]
    else if gs[0].0 == item.0 then
      var r := [(gs[0].0, gs[0].1 + item.1)] + gs[1..];
      assert r[1..] == gs[1..];
      KeysOfCons(r[0], gs[1..]);
      KeysOfCons(gs[0], gs[1..]);
      assert [gs[0]] + gs[1..] == gs;
      forall k ensures ValueOf(r, k) == ValueOf(gs, k) + (if k == item.0 then item.1 else 0) {
        if k != item.0 {
          assert ValueOf(r, k) == ValueOf(gs[1..], k);
        }
      }
      r
    else
      var rest := AddItem(gs[1..], item);
      var r := [gs[0]] + rest;
      assert r[1..] == rest;
      KeysOfCons(gs[0], gs[1..]);
      assert [gs[0]] + gs[1..] == gs;
      KeysOfCons(gs[0], rest);
      HeadKeyNotInTail(gs);
      assert DistinctKeys(r) by {
        forall i, j | 0 <= i < j < |r| ensures r[i].0 != r[j].0 {
          if i == 0 {
            assert r[j].0 == rest[j - 1].0 && rest[j - 1].0 in KeysOf(rest);
          } else {
            assert r[i] == rest[i - 1] && r[j] == rest[j - 1];
          }
        }
      }
      r
  }

  /** `group by` with `sum`: distinct keys, the keys of the input, and per key its sum. */
  function GroupSum<K(==,!new)>(items: seq<(K, int)>): (gs: seq<(K, int)>)
    ensures DistinctKeys(gs)
    ensures KeysOf(gs) == KeysOf(items)
    ensures forall k :: ValueOf(gs, k) == SumFor(items, k)
    decreases |items|
  {
    if items == [] then []
    else
      var front := items[..|items| - 1];
      var last := items[|items| - 1];
      KeysOfSnoc(front, last);
      assert front + [last] == items;
      AddItem(GroupSum(front), last)
  }

  /** Each group of `GroupSum` holds the sum of its key's values. */
  lemma {:induction false} GroupSumAt<K(!new)>(items: seq<(K, int)>, i: nat)
    requires i < |GroupSum(items)|
    ensures GroupSum(items)[i].1 == SumFor(items, GroupSum(items)[i].0)
  {
    ValueOfAt(GroupSum(items), i);
  }

  /** With distinct keys, the number of groups is the number of keys. */
  lemma {:induction false} DistinctKeysCount<K, V>(gs: seq<(K, V)>)
    requires DistinctKeys(gs)
    ensures |KeysOf(gs)| == |gs|
    decreases |gs|
  {
    if gs != [] {
      var rest := gs[1..];
      DistinctKeysCount(rest);
      KeysOfCons(gs[0], rest);
      assert [gs[0]] + rest == gs;
      HeadKeyNotInTail(gs);
    }
  }

  /** The lesser of two texts in code-point order. */
  function MinText(a: string, b: string): (m: string)
    ensures m == a || m == b
    ensures LessEq(m, a) && LessEq(m, b)
  {
    LessEqTotal(a, b);
    LessEqReflexive(a);
    LessEqReflexive(b);
    if LessEq(a, b) then a else b
  }

  /**
   * `r` is `gs` with `item` added, keeping the least text per key: its keys are distinct and
   * are those of `gs` and `item`, each of its groups is `item` or a group of `gs`, and each of
   * its texts sorts before or with `item`'s and `gs`'s texts of the same key.
   */
  ghost predicate AddedMin<K>(r: seq<(K, string)>, gs: seq<(K, string)>, item: (K, string)) {
    && DistinctKeys(r)
    && KeysOf(r) == KeysOf(gs) + {item.0}
    && (forall i :: 0 <= i < |r| ==> r[i] == item || r[i] in gs)
    && (forall i :: 0 <= i < |r| && r[i].0 == item.0 ==> LessEq(r[i].1, item.1))
    && (forall i, j :: 0 <= i < |r| && 0 <= j < |gs| && gs[j].0 == r[i].0 ==> LessEq(r[i].1, gs[j].1))
  }

  lemma AddMinEmpty<K>(item: (K, string))
    ensures AddedMin([item], [], item)
  {
    LessEqReflexive(item.1);
    assert [item][0].0 == item.0;
  }

  lemma AddMinHere<K>(gs: seq<(K, string)>, item: (K, string))
    requires DistinctKeys(gs) && gs != [] && gs[0].0 == item.0
    ensures AddedMin([(gs[0].0, MinText(gs[0].1, item.1))] + gs[1..], gs, item)
  {
    var r := [(gs[0].0, MinText(gs[0].1, item.1))] + gs[1..];
    assert r[1..] == gs[1..];
    KeysOfCons(r[0], gs[1..]);
    KeysOfCons(gs[0], gs[1..]);
    assert [gs[0]] + gs[1..] == gs;
    assert r[0] == item || r[0] == gs[0];
    assert forall i :: 0 < i < |r| ==> r[i] == gs[i];
    forall i | 0 < i < |r| ensures LessEq(r[i].1, gs[i].1) {
      LessEqReflexive(gs[i].1);
    }
  }

  lemma AddMinLaterKeys<K>(gs: seq<(K, string)>, item: (K, string), rest: seq<(K, string)>)
    requires DistinctKeys(gs) && gs != [] && gs[0].0 != item.0
    requires DistinctKeys(rest) && KeysOf(rest) == KeysOf(gs[1..]) + {item.0}
    ensures DistinctKeys([gs[0]] + rest)
    ensures KeysOf([gs[0]] + rest) == KeysOf(gs) + {item.0}
    ensures forall i :: 0 < i < |[gs[0]] + rest| ==> ([gs[0]] + rest)[i].0 != gs[0].0
  {
    var r := [gs[0]] + rest;
    KeysOfCons(gs[0], gs[1..]);
    assert [gs[0]] + gs[1..] == gs;
    KeysOfCons(gs[0], rest);
    HeadKeyNotInTail(gs);
    forall i | 0 < i < |r| ensures r[i].0 != gs[0].0 {
      assert r[i] == rest[i - 1] && rest[i - 1].0 in KeysOf(rest);
    }
  }

  lemma AddMinLater<K>(gs: seq<(K, string)>, item: (K, string), rest: seq<(K, string)>)
    requires DistinctKeys(gs) && gs != [] && gs[0].0 != item.0
    requires AddedMin(rest, gs[1..], item)
    ensures AddedMin([gs[0]] + rest, gs, item)
  {
    var r := [gs[0]] + rest;
    AddMinLaterKeys(gs, item, rest);
    forall i | 0 < i < |r| ensures r[i] == item || r[i] in gs {
      assert r[i] == rest[i - 1];
      assert rest[i - 1] == item || rest[i - 1] in gs[1..];
    }
    LessEqReflexive(gs[0].1);
    forall i, j | 0 < i < |r| && 0 < j < |gs| && gs[j].0 == r[i].0
      ensures LessEq(r[i].1, gs[j].1)
    {
      assert r[i] == rest[i - 1] && gs[j] == gs[1..][j - 1];
    }
  }

  /** Add one item to groups keeping the least text per key. */
  function AddMin<K(==)>(gs: seq<(K, string)>, item: (K, string)): (r: seq<(K, string)>)
    requires DistinctKeys(gs)
    ensures AddedMin(r, gs, item)
    decreases |gs|
  {
    if gs == [] then
      AddMinEmpty(item);
      [item]
    else if gs[0].0 == item.0 then
      AddMinHere(gs, item);
      [(gs[0].0, MinText(gs[0].1, item.1))] + gs[1..]
    else
      var rest := AddMin(gs[1..], item);
      AddMinLater(gs, item, rest);
      [gs[0]] + rest
  }

  /**
   * `group by` with `min`: distinct keys, the keys of the input, and per key a text paired
   * with that key in the input that sorts before or with every other text of that key.
   */
  function GroupMin<K(==)>(items: seq<(K, string)>): (gs: seq<(K, string)>)
    ensures DistinctKeys(gs)
    ensures KeysOf(gs) == KeysOf(items)
    ensures forall i :: 0 <= i < |gs| ==> gs[i] in items
    ensures forall i, j :: 0 <= i < |gs| && 0 <= j < |items| && items[j].0 == gs[i].0 ==>
      LessEq(gs[i].1, items[j].1)
    decreases |items|
  {
    if items == [] then []
    else
      var front := items[..|items| - 1];
      var last := items[|items| - 1];
      KeysOfSnoc(front, last);
      assert front + [last] == items;
      var prev := GroupMin(front);
      var r := AddMin(prev, last);
      forall i | 0 <= i < |r| ensures r[i] in items {
        if r[i] != last {
          assert r[i] in prev;
        }
      }
      forall i, j | 0 <= i < |r| && 0 <= j < |items| && items[j].0 == r[i].0
        ensures LessEq(r[i].1, items[j].1)
      {
        if j < |front| {
          assert items[j] == front[j];
          assert front[j].0 in KeysOf(prev);
          var g :| 0 <= g < |prev| && prev[g].0 == front[j].0;
          LessEqTransitive(r[i].1, prev[g].1, items[j].1);
        }
      }
      r
  }
}
