/**
 * Group-by-key aggregation shared by the song and the artist queries: keyed
 * millisecond counts are grouped by exact key equality, summed per key,
 * ordered by descending sum, and cut to a prefix.
 *
 * Groups are listed in the order in which their key first occurs, and the
 * ordering by sum always takes the earliest of several equal maxima first,
 * so a tie for the top place goes to the key that occurs first.
 */
module Grouping {
  import opened Wrappers

  /** One keyed count: the group key of a row and the milliseconds it played. */
  datatype Entry<K> = Entry(key: K, ms: nat)

  /** Some entry of `es` carries the key `k`. */
  predicate Occurs<K(==, !new)>(es: seq<Entry<K>>, k: K) {
    exists i :: 0 <= i < |es| && es[i].key == k
  }

  /** No value is listed twice. */
  predicate Distinct<K(==, !new)>(ks: seq<K>) {
    forall i, j :: 0 <= i < j < |ks| ==> ks[i] != ks[j]
  }

  /** The keys of the entries, in order. */
  function Keys<K>(es: seq<Entry<K>>): (ks: seq<K>)
    ensures |ks| == |es|
    ensures forall i :: 0 <= i < |es| ==> ks[i] == es[i].key
  {
    seq(|es|, i requires 0 <= i < |es| => es[i].key)
  }

  /** No key is carried by two entries. */
  predicate DistinctKeys<K(==, !new)>(es: seq<Entry<K>>) {
    Distinct(Keys(es))
  }

  /** Counts never grow from one entry to a later one. */
  predicate NonIncreasing<K(==, !new)>(es: seq<Entry<K>>) {
    forall i, j :: 0 <= i < j < |es| ==> es[j].ms <= es[i].ms
  }

  /** The sum of all counts. */
  function Sum<K(==, !new)>(es: seq<Entry<K>>): nat {
    if es == [] then 0 else Sum(es[..|es| - 1]) + es[|es| - 1].ms
  }

  /** The sum of the counts whose key is `k`: the group total of `k`. */
  function Total<K(==, !new)>(es: seq<Entry<K>>, k: K): (t: nat)
    ensures !Occurs(es, k) ==> t == 0
    ensures t <= Sum(es)
  {
    if es == [] then 0
    else
      var init := es[..|es| - 1];
      assert Occurs(init, k) ==> Occurs(es, k) by {
        if Occurs(init, k) {
          var i :| 0 <= i < |init| && init[i].key == k;
          assert es[i].key == k;
        }
      }
      Total(init, k) + (if es[|es| - 1].key == k then es[|es| - 1].ms else 0)
  }

  /** The position of the first entry with key `k`. */
  function FirstIndex<K(==, !new)>(es: seq<Entry<K>>, k: K): (i: nat)
    requires Occurs(es, k)
    ensures i < |es| && es[i].key == k
    ensures forall j :: 0 <= j < i ==> es[j].key != k
  {
    if es[0].key == k then 0
    else
      assert Occurs(es[1..], k) by {
        var i :| 0 <= i < |es| && es[i].key == k;
        assert es[1..][i - 1].key == k;
      }
      1 + FirstIndex(es[1..], k)
  }

  /** The first position is the only one before which `k` does not occur. */
  lemma FirstIndexUnique<K(!new)>(es: seq<Entry<K>>, k: K, i: nat)
    requires i < |es| && es[i].key == k
    requires forall j :: 0 <= j < i ==> es[j].key != k
    ensures FirstIndex(es, k) == i
  {
  }

  /**
   * The distinct keys of `es`, each once, in the order of their first
   * occurrence.
   */
  function KeysOf<K(==, !new)>(es: seq<Entry<K>>): (ks: seq<K>)
    ensures Distinct(ks)
    ensures forall k :: k in ks <==> Occurs(es, k)
  {
    if es == [] then []
    else
      var init := es[..|es| - 1];
      var last := es[|es| - 1];
      var ks := KeysOf(init);
      OccursSnocAll(es);
      if last.key in ks then ks else ks + [last.key]
  }

  /** The keys `ks` occur in `es`, listed in the order of their first occurrence. */
  ghost predicate InFirstOccurrenceOrder<K(!new)>(es: seq<Entry<K>>, ks: seq<K>) {
    forall i, j :: 0 <= i < j < |ks| ==>
      Occurs(es, ks[i]) && Occurs(es, ks[j]) && FirstIndex(es, ks[i]) < FirstIndex(es, ks[j])
  }

  /** The keys are listed in the order of their first occurrence. */
  lemma {:induction false} KeysInFirstOccurrenceOrder<K(!new)>(es: seq<Entry<K>>)
    ensures InFirstOccurrenceOrder(es, KeysOf(es))
  {
    if es != [] {
      var init, last := es[..|es| - 1], es[|es| - 1];
      KeysInFirstOccurrenceOrder(init);
      if Occurs(init, last.key) {
        OrderAfterRepeat(es);
      } else {
        OrderAfterNewKey(es);
      }
    }
  }

  lemma OrderAfterRepeat<K(!new)>(es: seq<Entry<K>>)
    requires es != [] && Occurs(es[..|es| - 1], es[|es| - 1].key)
    requires InFirstOccurrenceOrder(es[..|es| - 1], KeysOf(es[..|es| - 1]))
    ensures InFirstOccurrenceOrder(es, KeysOf(es))
  {
    var init := es[..|es| - 1];
    var ks := KeysOf(init);
    assert KeysOf(es) == ks;
    forall i, j | 0 <= i < j < |ks|
      ensures Occurs(es, ks[i]) && Occurs(es, ks[j]) && FirstIndex(es, ks[i]) < FirstIndex(es, ks[j])
    {
      KeptOrder(es, ks, i, j);
    }
  }

  /** Two keys of the shorter sequence keep their first positions and so their order. */
  lemma KeptOrder<K(!new)>(es: seq<Entry<K>>, ks: seq<K>, i: nat, j: nat)
    requires es != [] && ks == KeysOf(es[..|es| - 1]) && i < j < |ks|
    requires InFirstOccurrenceOrder(es[..|es| - 1], ks)
    ensures Occurs(es, ks[i]) && Occurs(es, ks[j]) && FirstIndex(es, ks[i]) < FirstIndex(es, ks[j])
  {
    var init := es[..|es| - 1];
    assert Occurs(init, ks[i]) && Occurs(init, ks[j]) && FirstIndex(init, ks[i]) < FirstIndex(init, ks[j]);
    FirstIndexSnoc(es, ks[i]);
    FirstIndexSnoc(es, ks[j]);
  }

  lemma OrderAfterNewKey<K(!new)>(es: seq<Entry<K>>)
    requires es != [] && !Occurs(es[..|es| - 1], es[|es| - 1].key)
    requires InFirstOccurrenceOrder(es[..|es| - 1], KeysOf(es[..|es| - 1]))
    ensures InFirstOccurrenceOrder(es, KeysOf(es))
  {
    var init, last := es[..|es| - 1], es[|es| - 1];
    var ks0, ks := KeysOf(init), KeysOf(es);
    assert ks == ks0 + [last.key];
    FirstIndexLast(es);
    forall i, j | 0 <= i < j < |ks|
      ensures Occurs(es, ks[i]) && Occurs(es, ks[j]) && FirstIndex(es, ks[i]) < FirstIndex(es, ks[j])
    {
      assert ks[i] == ks0[i];
      if j < |ks0| {
        assert ks[j] == ks0[j];
        KeptOrder(es, ks0, i, j);
      } else {
        assert ks[j] == last.key;
        assert ks0[i] in ks0;
        FirstIndexSnoc(es, ks0[i]);
      }
    }
  }

  lemma OccursSnocAll<K(!new)>(es: seq<Entry<K>>)
    requires es != []
    ensures forall k :: Occurs(es, k) <==> Occurs(es[..|es| - 1], k) || es[|es| - 1].key == k
  {
    forall k ensures Occurs(es, k) <==> Occurs(es[..|es| - 1], k) || es[|es| - 1].key == k {
      OccursSnoc(es, k);
    }
  }

  lemma FirstIndexSnocAll<K(!new)>(es: seq<Entry<K>>)
    requires es != []
    ensures forall k :: Occurs(es[..|es| - 1], k) ==>
      Occurs(es, k) && FirstIndex(es, k) == FirstIndex(es[..|es| - 1], k) < |es| - 1
  {
    forall k | Occurs(es[..|es| - 1], k)
      ensures Occurs(es, k) && FirstIndex(es, k) == FirstIndex(es[..|es| - 1], k) < |es| - 1
    {
      FirstIndexSnoc(es, k);
    }
  }

  lemma FirstIndexLast<K(!new)>(es: seq<Entry<K>>)
    requires es != [] && !Occurs(es[..|es| - 1], es[|es| - 1].key)
    ensures Occurs(es, es[|es| - 1].key) && FirstIndex(es, es[|es| - 1].key) == |es| - 1
  {
    var init, k := es[..|es| - 1], es[|es| - 1].key;
    forall j | 0 <= j < |es| - 1 ensures es[j].key != k {
      assert es[j] == init[j];
    }
    assert es[|es| - 1].key == k;
    FirstIndexUnique(es, k, |es| - 1);
  }

  lemma OccursSnoc<K(!new)>(es: seq<Entry<K>>, k: K)
    requires es != []
    ensures Occurs(es, k) <==> Occurs(es[..|es| - 1], k) || es[|es| - 1].key == k
  {
    var init := es[..|es| - 1];
    if Occurs(es, k) && es[|es| - 1].key != k {
      var i :| 0 <= i < |es| && es[i].key == k;
      assert init[i].key == k;
    }
    if Occurs(init, k) {
      var i :| 0 <= i < |init| && init[i].key == k;
      assert es[i].key == k;
    }
    if es[|es| - 1].key == k {
      assert es[|es| - 1].key == k;
    }
  }

  lemma FirstIndexSnoc<K(!new)>(es: seq<Entry<K>>, k: K)
    requires es != [] && Occurs(es[..|es| - 1], k)
    ensures Occurs(es, k) && FirstIndex(es, k) == FirstIndex(es[..|es| - 1], k) < |es| - 1
  {
    var init := es[..|es| - 1];
    var i := FirstIndex(init, k);
    assert es[i].key == k;
    FirstIndexUnique(es, k, i);
  }

  /** Every group and its total, in first-occurrence order. */
  ghost predicate Grouped<K(!new)>(gs: seq<Entry<K>>, es: seq<Entry<K>>) {
    && DistinctKeys(gs)
    && (forall k :: Occurs(gs, k) <==> Occurs(es, k))
    && (forall i :: 0 <= i < |gs| ==> gs[i].ms == Total(es, gs[i].key))
  }

  /**
   * Group by key and sum: one entry per distinct key of `es`, in the order of
   * first occurrence, carrying the key's group total.
   */
  function GroupBy<K(==, !new)>(es: seq<Entry<K>>): (gs: seq<Entry<K>>)
    ensures Grouped(gs, es)
    ensures |gs| == |KeysOf(es)|
    ensures forall i :: 0 <= i < |gs| ==> gs[i].key == KeysOf(es)[i]
  {
    var ks := KeysOf(es);
    var gs := seq(|ks|, i requires 0 <= i < |ks| => Entry(ks[i], Total(es, ks[i])));
    assert forall k :: Occurs(gs, k) <==> k in ks by {
      forall k | k in ks ensures Occurs(gs, k) {
        var i :| 0 <= i < |ks| && ks[i] == k;
        assert gs[i].key == k;
      }
    }
    gs
  }

  /**
   * The position of the largest count; of several equal largest counts, the
   * earliest.
   */
  function ArgMax<K(==, !new)>(gs: seq<Entry<K>>): (m: nat)
    requires gs != []
    ensures m < |gs|
    ensures forall j :: 0 <= j < |gs| ==> gs[j].ms <= gs[m].ms
    ensures forall j :: 0 <= j < m ==> gs[j].ms < gs[m].ms
  {
    if |gs| == 1 then 0
    else
      var m := ArgMax(gs[..|gs| - 1]);
      if gs[m].ms < gs[|gs| - 1].ms then |gs| - 1 else m
  }

  function RemoveAt<T>(s: seq<T>, i: nat): (r: seq<T>)
    requires i < |s|
    ensures |r| == |s| - 1
    ensures multiset(r) + multiset{s[i]} == multiset(s)
    ensures forall j :: 0 <= j < |r| ==> r[j] == if j < i then s[j] else s[j + 1]
  {
    assert s == s[..i] + [s[i]] + s[i + 1..];
    s[..i] + s[i + 1..]
  }

  /**
   * Ordering by descending count: repeatedly take the earliest largest
   * remaining entry. The result is a permutation and non-increasing; among
   * several equal maxima the earliest comes first.
   */
  function SortDesc<K(==, !new)>(gs: seq<Entry<K>>): (r: seq<Entry<K>>)
    ensures |r| == |gs|
    ensures multiset(r) == multiset(gs)
    ensures NonIncreasing(r)
    ensures DistinctKeys(gs) ==> DistinctKeys(r)
    ensures gs != [] ==> r[0] == gs[ArgMax(gs)]
    decreases |gs|
  {
    if gs == [] then []
    else
      var m := ArgMax(gs);
      var rest := SortDesc(RemoveAt(gs, m));
      SortDescStep(gs, m, rest);
      [gs[m]] + rest
  }

  /** Putting a largest entry in front of the ordered remainder keeps the order. */
  lemma SortDescStep<K(!new)>(gs: seq<Entry<K>>, m: nat, rest: seq<Entry<K>>)
    requires m < |gs|
    requires forall j :: 0 <= j < |gs| ==> gs[j].ms <= gs[m].ms
    requires multiset(rest) == multiset(RemoveAt(gs, m))
    requires NonIncreasing(rest)
    requires DistinctKeys(RemoveAt(gs, m)) ==> DistinctKeys(rest)
    ensures multiset([gs[m]] + rest) == multiset(gs)
    ensures NonIncreasing([gs[m]] + rest)
    ensures DistinctKeys(gs) ==> DistinctKeys([gs[m]] + rest)
  {
    RestFromOthers(gs, m, rest);
    MaxInFront(gs, m, rest);
    if DistinctKeys(gs) {
      assert DistinctKeys(RemoveAt(gs, m));
      KeyInFront(gs, m, rest);
    }
  }

  lemma MaxInFront<K(!new)>(gs: seq<Entry<K>>, m: nat, rest: seq<Entry<K>>)
    requires m < |gs|
    requires forall j :: 0 <= j < |gs| ==> gs[j].ms <= gs[m].ms
    requires forall j :: 0 <= j < |rest| ==> AtOtherPosition(gs, m, rest[j])
    requires NonIncreasing(rest)
    ensures NonIncreasing([gs[m]] + rest)
  {
    var r := [gs[m]] + rest;
    forall i, j | 0 <= i < j < |r| ensures r[j].ms <= r[i].ms {
      assert r[j] == rest[j - 1];
      if i > 0 {
        assert r[i] == rest[i - 1];
      } else {
        assert AtOtherPosition(gs, m, rest[j - 1]);
      }
    }
  }

  lemma KeyInFront<K(!new)>(gs: seq<Entry<K>>, m: nat, rest: seq<Entry<K>>)
    requires m < |gs| && DistinctKeys(gs) && DistinctKeys(rest)
    requires forall j :: 0 <= j < |rest| ==> AtOtherPosition(gs, m, rest[j])
    ensures DistinctKeys([gs[m]] + rest)
  {
    var r := [gs[m]] + rest;
    forall i, j | 0 <= i < j < |r| ensures r[i].key != r[j].key {
      assert r[j] == rest[j - 1] && AtOtherPosition(gs, m, rest[j - 1]);
      if i > 0 {
        assert r[i] == rest[i - 1];
      } else {
        var a :| 0 <= a < |gs| && a != m && gs[a] == rest[j - 1];
      }
    }
  }

  /** `x` is an entry of `gs` at some position other than `m`. */
  ghost predicate AtOtherPosition<T>(gs: seq<T>, m: nat, x: T) {
    exists a :: 0 <= a < |gs| && a != m && gs[a] == x
  }

  /** Every entry of the remainder is an entry of `gs` other than the `m`-th. */
  lemma RestFromOthers<K(!new)>(gs: seq<Entry<K>>, m: nat, rest: seq<Entry<K>>)
    requires m < |gs|
    requires multiset(rest) == multiset(RemoveAt(gs, m))
    ensures forall j :: 0 <= j < |rest| ==> AtOtherPosition(gs, m, rest[j])
  {
    var removed := RemoveAt(gs, m);
    forall j | 0 <= j < |rest|
      ensures AtOtherPosition(gs, m, rest[j])
    {
      PermutedElement(rest, removed, j);
      var b :| 0 <= b < |removed| && removed[b] == rest[j];
      var a := if b < m then b else b + 1;
      assert 0 <= a < |gs| && a != m && gs[a] == rest[j];
    }
  }

  /** The prefix pandas `head(n)` keeps: `n` rows, or for negative `n` all but the last `-n`. */
  function Head<T>(s: seq<T>, n: int): (r: seq<T>)
    ensures |r| <= |s| && r == s[..|r|]
    ensures n >= 0 ==> |r| == if n < |s| then n else |s|
    ensures n < 0 ==> |r| == if -n < |s| then |s| + n else 0
  {
    if 0 <= n < |s| then s[..n]
    else if n >= 0 then s
    else if -n < |s| then s[..|s| + n]
    else []
  }

  /** Every key of `es` has a group total at most `e`'s, and `e` is a group of `es`. */
  ghost predicate IsTop<K(!new)>(es: seq<Entry<K>>, e: Entry<K>) {
    && Occurs(es, e.key)
    && e.ms == Total(es, e.key)
    && forall k :: Occurs(es, k) ==> Total(es, k) <= e.ms
  }

  /**
   * The group with the largest total (grouping, ordering by total, taking
   * the first); absent exactly when there are no entries. Of several groups
   * with the largest total it is the one whose key occurs first.
   */
  function TopGroup<K(==, !new)>(es: seq<Entry<K>>): (r: Option<Entry<K>>)
    ensures r.None? <==> es == []
    ensures r.Some? ==> IsTop(es, r.value)
    ensures r.Some? ==> forall k :: Occurs(es, k) && Total(es, k) == r.value.ms ==>
      FirstIndex(es, r.value.key) <= FirstIndex(es, k)
  {
    if es == [] then None
    else
      var gs := GroupBy(es);
      assert Occurs(es, es[0].key);
      assert gs != [];
      var top := SortDesc(gs)[0];
      TopGroupFacts(es, gs);
      Some(top)
  }

  lemma TopGroupFacts<K(!new)>(es: seq<Entry<K>>, gs: seq<Entry<K>>)
    requires gs == GroupBy(es) && gs != []
    ensures IsTop(es, gs[ArgMax(gs)])
    ensures forall k :: Occurs(es, k) && Total(es, k) == gs[ArgMax(gs)].ms ==>
      FirstIndex(es, gs[ArgMax(gs)].key) <= FirstIndex(es, k)
  {
    var m := ArgMax(gs);
    var ks := KeysOf(es);
    KeysInFirstOccurrenceOrder(es);
    assert InFirstOccurrenceOrder(es, ks);
    assert Occurs(gs, gs[m].key);
    forall k | Occurs(es, k)
      ensures exists j :: 0 <= j < |gs| && gs[j].key == k
    {
      assert Occurs(gs, k);
    }
    forall k | Occurs(es, k) && Total(es, k) == gs[m].ms
      ensures FirstIndex(es, gs[m].key) <= FirstIndex(es, k)
    {
      var j :| 0 <= j < |gs| && gs[j].key == k;
      if m < j {
        assert ks[m] == gs[m].key && ks[j] == k;
      }
    }
  }

  /**
   * The first `n` groups by descending total, in the sense of `Head`, and
   * nothing for no entries.
   */
  function TopN<K(==, !new)>(es: seq<Entry<K>>, n: int): (r: seq<Entry<K>>)
    ensures es == [] ==> r == []
    ensures n >= 0 ==> |r| == if n < |KeysOf(es)| then n else |KeysOf(es)|
    ensures n < 0 ==> |r| == if -n < |KeysOf(es)| then |KeysOf(es)| + n else 0
    ensures DistinctKeys(r)
    ensures forall i :: 0 <= i < |r| ==> Occurs(es, r[i].key) && r[i].ms == Total(es, r[i].key)
    ensures NonIncreasing(r)
    ensures forall k, i :: Occurs(es, k) && !Occurs(r, k) && 0 <= i < |r| ==> Total(es, k) <= r[i].ms
    ensures n >= |KeysOf(es)| ==> forall k :: Occurs(es, k) ==> Occurs(r, k)
    ensures es != [] && n >= 1 ==> r[0] == TopGroup(es).value
  {
    if es == [] then []
    else
      var sorted := SortDesc(GroupBy(es));
      var r := Head(sorted, n);
      SortedGroups(es, sorted);
      PrefixOfSorted(es, sorted, r);
      assert sorted[0] == TopGroup(es).value;
      r
  }

  /** The ordered groups are the groups: each key once, each with its total. */
  lemma SortedGroups<K(!new)>(es: seq<Entry<K>>, sorted: seq<Entry<K>>)
    requires sorted == SortDesc(GroupBy(es))
    ensures forall j :: 0 <= j < |sorted| ==>
      Occurs(es, sorted[j].key) && sorted[j].ms == Total(es, sorted[j].key)
    ensures forall k :: Occurs(es, k) ==> Occurs(sorted, k)
  {
    var gs := GroupBy(es);
    assert multiset(sorted) == multiset(gs);
    forall j | 0 <= j < |sorted|
      ensures Occurs(es, sorted[j].key) && sorted[j].ms == Total(es, sorted[j].key)
    {
      PermutedElement(sorted, gs, j);
      var a :| 0 <= a < |gs| && gs[a] == sorted[j];
      assert Occurs(gs, gs[a].key);
    }
    forall k | Occurs(es, k) ensures Occurs(sorted, k) {
      assert Occurs(gs, k);
      var a :| 0 <= a < |gs| && gs[a].key == k;
      PermutedElement(gs, sorted, a);
      var b :| 0 <= b < |sorted| && sorted[b] == gs[a];
      assert sorted[b].key == k;
    }
  }

  lemma PermutedElement<T>(s: seq<T>, t: seq<T>, j: nat)
    requires multiset(s) == multiset(t) && j < |s|
    ensures exists a :: 0 <= a < |t| && t[a] == s[j]
  {
    assert s[j] in multiset(s);
    assert s[j] in t;
  }

  /** A prefix of the ordered groups leaves out no group with a larger total than one it keeps. */
  lemma PrefixOfSorted<K(!new)>(es: seq<Entry<K>>, sorted: seq<Entry<K>>, r: seq<Entry<K>>)
    requires NonIncreasing(sorted)
    requires forall j :: 0 <= j < |sorted| ==>
      Occurs(es, sorted[j].key) && sorted[j].ms == Total(es, sorted[j].key)
    requires forall k :: Occurs(es, k) ==> Occurs(sorted, k)
    requires |r| <= |sorted| && r == sorted[..|r|]
    ensures forall k, i :: Occurs(es, k) && !Occurs(r, k) && 0 <= i < |r| ==> Total(es, k) <= r[i].ms
    ensures |r| == |sorted| ==> forall k :: Occurs(es, k) ==> Occurs(r, k)
    ensures forall i :: 0 <= i < |r| ==> Occurs(es, r[i].key) && r[i].ms == Total(es, r[i].key)
    ensures NonIncreasing(r)
    ensures DistinctKeys(sorted) ==> DistinctKeys(r)
  {
    forall k, i | Occurs(es, k) && !Occurs(r, k) && 0 <= i < |r|
      ensures Total(es, k) <= r[i].ms
    {
      var b :| 0 <= b < |sorted| && sorted[b].key == k;
      assert sorted[b].ms <= sorted[i].ms;
    }
    if |r| == |sorted| {
      assert r == sorted;
    }
  }

  /** The sum, over the keys `ks`, of their group totals in `es`. */
  ghost function SumTotals<K(!new)>(es: seq<Entry<K>>, ks: seq<K>): nat {
    if ks == [] then 0 else SumTotals(es, ks[..|ks| - 1]) + Total(es, ks[|ks| - 1])
  }

  /** Grouping neither loses nor invents time: the group totals add up to the sum of all counts. */
  lemma {:induction false} GroupTotalsAddUp<K(!new)>(es: seq<Entry<K>>)
    ensures Sum(GroupBy(es)) == Sum(es)
  {
    SumOfGroups(es, GroupBy(es), KeysOf(es));
    KeyTotalsAddUp(es);
  }

  lemma {:induction false} SumOfGroups<K(!new)>(es: seq<Entry<K>>, gs: seq<Entry<K>>, ks: seq<K>)
    requires |gs| == |ks|
    requires forall i :: 0 <= i < |gs| ==> gs[i] == Entry(ks[i], Total(es, ks[i]))
    ensures Sum(gs) == SumTotals(es, ks)
  {
    if ks != [] {
      SumOfGroups(es, gs[..|gs| - 1], ks[..|ks| - 1]);
    }
  }

  lemma {:induction false} KeyTotalsAddUp<K(!new)>(es: seq<Entry<K>>)
    ensures SumTotals(es, KeysOf(es)) == Sum(es)
  {
    if es != [] {
      var init, last := es[..|es| - 1], es[|es| - 1];
      var ks := KeysOf(init);
      KeyTotalsAddUp(init);
      SumTotalsSnoc(es, ks);
      assert Sum(es) == Sum(init) + last.ms;
      if last.key in ks {
        assert KeysOf(es) == ks;
      } else {
        var ks' := ks + [last.key];
        assert KeysOf(es) == ks';
        assert ks'[..|ks|] == ks;
        assert SumTotals(es, ks') == SumTotals(es, ks) + Total(es, last.key);
        assert !Occurs(init, last.key);
        assert Total(es, last.key) == Total(init, last.key) + last.ms;
      }
    }
  }

  /** Appending one entry adds its count to the total of the keys that include its key. */
  lemma {:induction false} SumTotalsSnoc<K(!new)>(es: seq<Entry<K>>, ks: seq<K>)
    requires es != [] && Distinct(ks)
    ensures SumTotals(es, ks) ==
      SumTotals(es[..|es| - 1], ks) + (if es[|es| - 1].key in ks then es[|es| - 1].ms else 0)
  {
    if ks != [] {
      var ks' := ks[..|ks| - 1];
      assert Distinct(ks');
      SumTotalsSnoc(es, ks');
      assert ks == ks' + [ks[|ks| - 1]];
      assert es[|es| - 1].key in ks <==> es[|es| - 1].key in ks' || es[|es| - 1].key == ks[|ks| - 1];
      assert ks[|ks| - 1] !in ks';
    }
  }
}
