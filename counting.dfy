/**
 * The counting done by the scripts: `collections.Counter` (a count per key,
 * keys remembered in first-insertion order), `Counter.most_common(n)`,
 * deleting keys from a counter (`del c[k]` and `c.pop(k, None)` in a loop),
 * and `value_counts().sort_index()` on the integer year column.
 */
module Counting {
  import opened Wrappers
  import opened Seqs

  /** A counter: its keys in the order they were first inserted, and the
      count of each key. */
  datatype Counts<K> = Counts(order: seq<K>, count: map<K, int>)

  /** Every key listed once, the listed keys are exactly the counted ones,
      and every count is at least 1. */
  ghost predicate Valid<K(!new)>(c: Counts<K>) {
    && Distinct(c.order)
    && (forall k :: k in c.count <==> k in c.order)
    && (forall k :: k in c.count ==> c.count[k] >= 1)
  }

  // ----- Counter(tokens) -----

  /** Counting one more occurrence of `t`: a new key goes to the end of the order. */
  function Add<K(==,!new)>(c: Counts<K>, t: K): (r: Counts<K>)
    requires Valid(c)
    ensures Valid(r)
    ensures r.order == if t in c.count then c.order else c.order + [t]
    ensures forall k :: k in r.count <==> k in c.count || k == t
    ensures forall k :: k in r.count ==> r.count[k] == (if k in c.count then c.count[k] else 0) + (if k == t then 1 else 0)
  {
    if t in c.count then Counts(c.order, c.count[t := c.count[t] + 1])
    else Counts(c.order + [t], c.count[t := 1])
  }

  /** `Counter(tokens)`: each token counted as often as it occurs, and no
      other key. */
  function Tally<K(==,!new)>(tokens: seq<K>): (c: Counts<K>)
    ensures Valid(c)
    ensures forall k :: k in c.count <==> k in tokens
    ensures forall k :: k in c.count ==> c.count[k] == multiset(tokens)[k]
    decreases |tokens|
  {
    if tokens == [] then Counts([], map[])
    else
      var prefix, t := tokens[..|tokens| - 1], tokens[|tokens| - 1];
      assert tokens == prefix + [t];
      Add(Tally(prefix), t)
  }

  /** The position of the first occurrence of `x` in `s`. */
  function FirstIndex<T(==,!new)>(s: seq<T>, x: T): (i: nat)
    requires x in s
    ensures i < |s| && s[i] == x && x !in s[..i]
  {
    if s[0] == x then 0 else 1 + FirstIndex(s[1..], x)
  }

  lemma {:induction false} FirstIndexPrefix<T(!new)>(p: seq<T>, t: T, x: T)
    requires x in p
    ensures FirstIndex(p + [t], x) == FirstIndex(p, x)
  {
    if p[0] != x {
      assert (p + [t])[1..] == p[1..] + [t];
      FirstIndexPrefix(p[1..], t, x);
    }
  }

  /** Every element of `order` occurs in `s`, and they are listed in the
      order of their first occurrence in `s`. */
  ghost predicate InFirstSeenOrder<T(!new)>(s: seq<T>, order: seq<T>) {
    && (forall i :: 0 <= i < |order| ==> order[i] in s)
    && (forall i, j :: 0 <= i < j < |order| ==> FirstIndex(s, order[i]) < FirstIndex(s, order[j]))
  }

  lemma FirstSeenStep<T(!new)>(p: seq<T>, t: T, order: seq<T>)
    requires InFirstSeenOrder(p, order)
    ensures InFirstSeenOrder(p + [t], order)
    ensures t !in p ==> InFirstSeenOrder(p + [t], order + [t])
  {
    var s := p + [t];
    forall i | 0 <= i < |order| ensures order[i] in s && FirstIndex(s, order[i]) == FirstIndex(p, order[i]) < |p| {
      FirstIndexPrefix(p, t, order[i]);
    }
    if t !in p {
      assert FirstIndex(s, t) == |p| by {
        assert s[..|p|] == p;
      }
      var o := order + [t];
      forall i, j | 0 <= i < j < |o| ensures FirstIndex(s, o[i]) < FirstIndex(s, o[j]) {
        assert o[i] == order[i];
      }
    }
  }

  /** The counter remembers its keys in the order of their first occurrence
      in the tokens. */
  lemma {:induction false} TallyFirstSeen<K(!new)>(tokens: seq<K>)
    ensures InFirstSeenOrder(tokens, Tally(tokens).order)
    decreases |tokens|
  {
    if tokens != [] {
      var prefix, t := tokens[..|tokens| - 1], tokens[|tokens| - 1];
      assert tokens == prefix + [t];
      TallyFirstSeen(prefix);
      FirstSeenStep(prefix, t, Tally(prefix).order);
    }
  }

  // ----- most_common(n) -----

  /** The counter's (key, count) pairs in insertion order. */
  function Items<K(==,!new)>(c: Counts<K>): (items: seq<(K, int)>)
    requires Valid(c)
    ensures |items| == |c.order|
    ensures forall i :: 0 <= i < |items| ==> items[i] == (c.order[i], c.count[c.order[i]])
  {
    seq(|c.order|, i requires 0 <= i < |c.order| => (c.order[i], c.count[c.order[i]]))
  }

  predicate NonIncreasing<K(==,!new)>(s: seq<(K, int)>) {
    forall i, j :: 0 <= i < j < |s| ==> s[i].1 >= s[j].1
  }

  /** Insert `x` in front of the first pair whose count is not larger. */
  function InsertByCount<K(==,!new)>(x: (K, int), s: seq<(K, int)>): seq<(K, int)> {
    if s == [] || s[0].1 <= x.1 then [x] + s
    else [s[0]] + InsertByCount(x, s[1..])
  }

  /** A stable sort by count, largest first. */
  function SortByCount<K(==,!new)>(s: seq<(K, int)>): seq<(K, int)> {
    if s == [] then [] else InsertByCount(s[0], SortByCount(s[1..]))
  }

  lemma {:induction false} InsertByCountPerm<K(!new)>(x: (K, int), s: seq<(K, int)>)
    ensures multiset(InsertByCount(x, s)) == multiset(s) + multiset{x}
  {
    if !(s == [] || s[0].1 <= x.1) {
      InsertByCountPerm(x, s[1..]);
      assert s == [s[0]] + s[1..];
    }
  }

  lemma ConsNonIncreasing<K(!new)>(a: (K, int), r: seq<(K, int)>)
    requires NonIncreasing(r)
    requires forall k :: 0 <= k < |r| ==> r[k].1 <= a.1
    ensures NonIncreasing([a] + r)
  {
    var t := [a] + r;
    forall i, j | 0 <= i < j < |t| ensures t[i].1 >= t[j].1 {
      assert t[j] == r[j - 1];
      if i > 0 {
        assert t[i] == r[i - 1];
      }
    }
  }

  lemma {:induction false} InsertByCountBounded<K(!new)>(x: (K, int), s: seq<(K, int)>, b: int)
    requires x.1 <= b
    requires forall k :: 0 <= k < |s| ==> s[k].1 <= b
    ensures forall k :: 0 <= k < |InsertByCount(x, s)| ==> InsertByCount(x, s)[k].1 <= b
  {
    if s == [] || s[0].1 <= x.1 {
      var r := [x] + s;
      assert forall k :: 1 <= k < |r| ==> r[k] == s[k - 1];
    } else {
      var rest := InsertByCount(x, s[1..]);
      InsertByCountBounded(x, s[1..], b);
      var r := [s[0]] + rest;
      assert forall k :: 1 <= k < |r| ==> r[k] == rest[k - 1];
    }
  }

  lemma {:induction false} InsertByCountSorted<K(!new)>(x: (K, int), s: seq<(K, int)>)
    requires NonIncreasing(s)
    ensures NonIncreasing(InsertByCount(x, s))
  {
    if s == [] || s[0].1 <= x.1 {
      forall k | 0 <= k < |s| ensures s[k].1 <= x.1 {
        if k > 0 {
          assert s[0].1 >= s[k].1;
        }
      }
      ConsNonIncreasing(x, s);
    } else {
      var tail := s[1..];
      assert NonIncreasing(tail) by {
        forall i, j | 0 <= i < j < |tail| ensures tail[i].1 >= tail[j].1 {
          assert tail[i] == s[i + 1] && tail[j] == s[j + 1];
        }
      }
      InsertByCountSorted(x, tail);
      forall k | 0 <= k < |tail| ensures tail[k].1 <= s[0].1 {
        assert tail[k] == s[k + 1];
      }
      InsertByCountBounded(x, tail, s[0].1);
      ConsNonIncreasing(s[0], InsertByCount(x, tail));
    }
  }

  lemma {:induction false} SortByCountSorts<K(!new)>(s: seq<(K, int)>)
    ensures multiset(SortByCount(s)) == multiset(s)
    ensures NonIncreasing(SortByCount(s))
  {
    if s != [] {
      SortByCountSorts(s[1..]);
      InsertByCountPerm(s[0], SortByCount(s[1..]));
      InsertByCountSorted(s[0], SortByCount(s[1..]));
      assert s == [s[0]] + s[1..];
    }
  }

  /** The pairs of `s` whose count is `v`, in order. */
  function WithCount<K(==,!new)>(s: seq<(K, int)>, v: int): seq<(K, int)> {
    if s == [] then []
    else (if s[0].1 == v then [s[0]] else []) + WithCount(s[1..], v)
  }

  lemma WithCountCons<K(!new)>(p: (K, int), s: seq<(K, int)>, v: int)
    ensures WithCount([p] + s, v) == (if p.1 == v then [p] else []) + WithCount(s, v)
  {
    assert ([p] + s)[1..] == s;
  }

  /** Inserting puts a pair in front of every pair of equal count, which
      keeps the sort stable: the pair inserted comes earlier in the input. */
  lemma {:induction false} InsertByCountStable<K(!new)>(x: (K, int), s: seq<(K, int)>, v: int)
    ensures WithCount(InsertByCount(x, s), v) == (if x.1 == v then [x] else []) + WithCount(s, v)
  {
    if s == [] || s[0].1 <= x.1 {
      assert InsertByCount(x, s) == [x] + s;
      WithCountCons(x, s, v);
    } else {
      var p, t := s[0], s[1..];
      assert s == [p] + t;
      var rest := InsertByCount(x, t);
      assert InsertByCount(x, s) == [p] + rest;
      InsertByCountStable(x, t, v);
      WithCountCons(p, rest, v);
      WithCountCons(p, t, v);
      if x.1 == v {
        assert p.1 != v;
      } else {
        assert WithCount(rest, v) == WithCount(t, v);
      }
    }
  }

  /** The sort is stable: pairs with equal counts keep their relative order. */
  lemma {:induction false} SortByCountStable<K(!new)>(s: seq<(K, int)>, v: int)
    ensures WithCount(SortByCount(s), v) == WithCount(s, v)
  {
    if s != [] {
      SortByCountStable(s[1..], v);
      InsertByCountStable(s[0], SortByCount(s[1..]), v);
    }
  }

  function Take<T(==,!new)>(s: seq<T>, n: nat): (r: seq<T>)
    ensures |r| == if n < |s| then n else |s|
    ensures r == s[..|r|]
  {
    if n < |s| then s[..n] else s
  }

  lemma RepeatedMultiset<T(!new)>(s: seq<T>, i: nat, j: nat)
    requires i < j < |s| && s[i] == s[j]
    ensures multiset(s)[s[i]] >= 2
  {
    assert s == s[..j] + [s[j]] + s[j + 1..];
    assert s[..j][i] == s[i];
    assert s[i] in multiset(s[..j]);
  }

  /** The counter's items sorted by count: each key once with its count,
      largest count first. */
  lemma SortedItems<K(!new)>(c: Counts<K>)
    requires Valid(c)
    ensures var sorted := SortByCount(Items(c));
      && |sorted| == |c.order|
      && NonIncreasing(sorted)
      && Distinct(sorted)
      && (forall e :: e in sorted ==> e.0 in c.count && e.1 == c.count[e.0])
      && (forall k :: k in c.count ==> (k, c.count[k]) in sorted)
  {
    var items := Items(c);
    var sorted := SortByCount(items);
    SortByCountSorts(items);
    assert |sorted| == |multiset(sorted)| == |multiset(items)| == |items|;
    assert Distinct(items) by {
      forall i, j | 0 <= i < j < |items| ensures items[i] != items[j] {
        assert items[i].0 == c.order[i] && items[j].0 == c.order[j];
      }
    }
    forall i, j | 0 <= i < j < |sorted| ensures sorted[i] != sorted[j] {
      if sorted[i] == sorted[j] {
        RepeatedMultiset(sorted, i, j);
        DistinctMultiset(items, sorted[i]);
      }
    }
    forall e | e in sorted ensures e.0 in c.count && e.1 == c.count[e.0] {
      assert e in multiset(items);
    }
    forall k | k in c.count ensures (k, c.count[k]) in sorted {
      var p :| 0 <= p < |c.order| && c.order[p] == k;
      assert items[p] in multiset(sorted);
    }
  }

  /** In a list sorted by count, an element outside a prefix counts no more
      than any element of the prefix. */
  lemma PrefixDominates<K(!new)>(s: seq<(K, int)>, m: nat, x: (K, int))
    requires NonIncreasing(s) && m <= |s|
    requires x in s && x !in s[..m]
    ensures forall e :: e in s[..m] ==> x.1 <= e.1
  {
    var q :| 0 <= q < |s| && s[q] == x;
    assert forall i :: 0 <= i < m ==> s[..m][i] == s[i] && s[..m][i] in s[..m];
    assert q >= m;
    forall e | e in s[..m] ensures x.1 <= e.1 {
      var i :| 0 <= i < m && s[..m][i] == e;
    }
  }

  lemma SortedKeysDistinct<K(!new)>(c: Counts<K>)
    requires Valid(c)
    ensures var sorted := SortByCount(Items(c));
      forall i, j :: 0 <= i < j < |sorted| ==> sorted[i].0 != sorted[j].0
  {
    var sorted := SortByCount(Items(c));
    SortedItems(c);
    forall i, j | 0 <= i < j < |sorted| ensures sorted[i].0 != sorted[j].0 {
      assert sorted[i] != sorted[j];
      assert sorted[i] in sorted && sorted[j] in sorted;
    }
  }

  /** The first `n` entries of any list sorted by count that holds every key
      of `c` once, with its count. */
  lemma {:induction false} PrefixTop<K(!new)>(sorted: seq<(K, int)>, c: Counts<K>, n: nat)
    requires |sorted| == |c.order| && NonIncreasing(sorted)
    requires forall e :: e in sorted ==> e.0 in c.count && e.1 == c.count[e.0]
    requires forall k :: k in c.count ==> (k, c.count[k]) in sorted
    requires forall i, j :: 0 <= i < j < |sorted| ==> sorted[i].0 != sorted[j].0
    ensures var top := Take(sorted, n);
      && |top| == (if n < |c.order| then n else |c.order|)
      && NonIncreasing(top)
      && (forall e :: e in top ==> e.0 in c.count && e.1 == c.count[e.0])
      && (forall i, j :: 0 <= i < j < |top| ==> top[i].0 != top[j].0)
      && (forall k :: k in c.count && (forall e :: e in top ==> e.0 != k) ==>
            |top| == n && forall e :: e in top ==> c.count[k] <= e.1)
  {
    var top := Take(sorted, n);
    assert top == sorted[..|top|];
    assert forall i :: 0 <= i < |top| ==> top[i] == sorted[i];
    forall k | k in c.count && (forall e :: e in top ==> e.0 != k)
      ensures |top| == n && forall e :: e in top ==> c.count[k] <= e.1
    {
      assert (k, c.count[k]) !in top;
      PrefixDominates(sorted, |top|, (k, c.count[k]));
    }
  }

  lemma TopOfSorted<K(!new)>(c: Counts<K>, n: nat)
    requires Valid(c)
    ensures var top := Take(SortByCount(Items(c)), n);
      && |top| == (if n < |c.order| then n else |c.order|)
      && NonIncreasing(top)
      && (forall e :: e in top ==> e.0 in c.count && e.1 == c.count[e.0])
      && (forall i, j :: 0 <= i < j < |top| ==> top[i].0 != top[j].0)
      && (forall k :: k in c.count && (forall e :: e in top ==> e.0 != k) ==>
            |top| == n && forall e :: e in top ==> c.count[k] <= e.1)
  {
    SortedItems(c);
    SortedKeysDistinct(c);
    PrefixTop(SortByCount(Items(c)), c, n);
  }

  /** `Counter.most_common(n)`: the `n` (or all, if fewer) pairs with the
      largest counts, largest first, each key once with its count, and no
      key is left out unless all `n` places are taken by keys counting at
      least as much. */
  function MostCommon<K(==,!new)>(c: Counts<K>, n: nat): (top: seq<(K, int)>)
    requires Valid(c)
    ensures |top| == if n < |c.order| then n else |c.order|
    ensures NonIncreasing(top)
    ensures forall e :: e in top ==> e.0 in c.count && e.1 == c.count[e.0]
    ensures forall i, j :: 0 <= i < j < |top| ==> top[i].0 != top[j].0
    ensures forall k :: k in c.count && (forall e :: e in top ==> e.0 != k) ==>
              |top| == n && forall e :: e in top ==> c.count[k] <= e.1
  {
    TopOfSorted(c, n);
    Take(SortByCount(Items(c)), n)
  }

  lemma {:induction false} WithCountTake<K(!new)>(s: seq<(K, int)>, m: nat, v: int)
    requires m <= |s|
    ensures var a, b := WithCount(s[..m], v), WithCount(s, v);
      |a| <= |b| && a == b[..|a|]
  {
    if m > 0 {
      assert s[..m][1..] == s[1..][..m - 1];
      WithCountTake(s[1..], m - 1, v);
    }
  }

  /** Ties in `most_common` keep the counter's insertion order: the pairs of
      the result with count `v` are the first pairs with count `v` among the
      counter's items. */
  lemma MostCommonTies<K(!new)>(c: Counts<K>, n: nat, v: int)
    requires Valid(c)
    ensures var ties, all := WithCount(MostCommon(c, n), v), WithCount(Items(c), v);
      |ties| <= |all| && ties == all[..|ties|]
  {
    var sorted := SortByCount(Items(c));
    SortByCountStable(Items(c), v);
    WithCountTake(sorted, |MostCommon(c, n)|, v);
  }

  // ----- Deleting keys -----

  /** `s` without the elements of `drop`. */
  function Remove<T(==,!new)>(s: seq<T>, drop: set<T>): (r: seq<T>)
    ensures forall x :: x in r <==> x in s && x !in drop
    ensures IsSubsequence(r, s)
    ensures Distinct(s) ==> Distinct(r)
  {
    if s == [] then []
    else
      var rest := Remove(s[1..], drop);
      assert s == [s[0]] + s[1..];
      if s[0] in drop then
        assert rest != [] ==> IsSubsequence(rest, s[1..]);
        rest
      else
        assert ([s[0]] + rest)[1..] == rest;
        assert Distinct(s) ==> s[0] !in s[1..];
        [s[0]] + rest
  }

  /** The counter without the keys in `drop`: the other keys keep their
      counts and their order. */
  function Without<K(==,!new)>(c: Counts<K>, drop: set<K>): (r: Counts<K>)
    requires Valid(c)
    ensures Valid(r)
    ensures forall k :: k in r.count <==> k in c.count && k !in drop
    ensures forall k :: k in r.count ==> r.count[k] == c.count[k]
    ensures IsSubsequence(r.order, c.order)
  {
    Counts(Remove(c.order, drop), c.count - drop)
  }

  /** `del c[k]` on a `Counter`: unlike a plain dict, a Counter ignores an
      absent key instead of raising KeyError, so the script's membership
      guard changes nothing. */
  function Delete<K(==,!new)>(c: Counts<K>, k: K): (r: Counts<K>)
    requires Valid(c)
    ensures Valid(r)
    ensures r.count.Keys == c.count.Keys - {k}
    ensures forall j :: j in r.count ==> r.count[j] == c.count[j]
    ensures IsSubsequence(r.order, c.order)
    ensures k !in c.count ==> r == c
  {
    if k in c.count then Without(c, {k})
    else
      SubsequenceOfItself(c.order);
      c
  }

  /** `c.pop(k, None)`: the counter without `k` and the count removed, or the
      counter unchanged and `None` when `k` is absent. */
  function Pop<K(==,!new)>(c: Counts<K>, k: K): (r: (Counts<K>, Option<int>))
    requires Valid(c)
    ensures Valid(r.0)
    ensures r.0.count.Keys == c.count.Keys - {k}
    ensures forall j :: j in r.0.count ==> r.0.count[j] == c.count[j]
    ensures k in c.count ==> IsSubsequence(r.0.order, c.order) && r.1 == Some(c.count[k])
    ensures k !in c.count ==> r == (c, None)
  {
    if k in c.count then (Delete(c, k), Some(c.count[k])) else (c, None)
  }

  lemma {:induction false} RemoveNothing<T(!new)>(s: seq<T>)
    ensures Remove(s, {}) == s
  {
    if s != [] {
      RemoveNothing(s[1..]);
    }
  }

  lemma {:induction false} RemoveMore<T(!new)>(s: seq<T>, drop: set<T>, x: T)
    ensures Remove(Remove(s, drop), {x}) == Remove(s, drop + {x})
  {
    if s != [] {
      RemoveMore(s[1..], drop, x);
    }
  }

  lemma {:induction false} RemoveAbsent<T(!new)>(s: seq<T>, drop: set<T>, x: T)
    requires x !in s || x in drop
    ensures Remove(s, drop + {x}) == Remove(s, drop)
  {
    if s != [] {
      assert x !in s ==> x !in s[1..];
      RemoveAbsent(s[1..], drop, x);
    }
  }

  lemma WithoutNothing<K(!new)>(c: Counts<K>)
    requires Valid(c)
    ensures Without(c, {}) == c
  {
    RemoveNothing(c.order);
    assert c.count - {} == c.count;
  }

  /** The most common tokens of a counter of `tokens` once the keys in `drop`
      are deleted: each is a token outside `drop` with its number of
      occurrences, and a token outside `drop` left out occurs no more often
      than any listed one. */
  lemma {:induction false} TopWithout<K(!new)>(c: Counts<K>, tokens: seq<K>, drop: set<K>, n: nat)
    requires Valid(c)
    requires forall k :: k in c.count <==> k in tokens
    requires forall k :: k in c.count ==> c.count[k] == multiset(tokens)[k]
    ensures var top := MostCommon(Without(c, drop), n);
      && |top| <= n
      && NonIncreasing(top)
      && (forall i, j :: 0 <= i < j < |top| ==> top[i].0 != top[j].0)
      && (forall e :: e in top ==> e.0 in tokens && e.0 !in drop && e.1 == multiset(tokens)[e.0])
      && (forall k :: k in tokens && k !in drop && (forall e :: e in top ==> e.0 != k) ==>
            |top| == n && forall e :: e in top ==> multiset(tokens)[k] <= e.1)
  {
    var r := Without(c, drop);
    var top := MostCommon(r, n);
    forall k | k in tokens && k !in drop && (forall e :: e in top ==> e.0 != k)
      ensures |top| == n && forall e :: e in top ==> multiset(tokens)[k] <= e.1
    {
      assert k in r.count;
    }
  }

  /** Removing one more key, present or not, is a step of removing the set. */
  lemma WithoutOneMore<K(!new)>(c: Counts<K>, drop: set<K>, x: K)
    requires Valid(c)
    ensures var r := Without(c, drop);
      Without(c, drop + {x}) == if x in r.count then Delete(r, x) else r
  {
    var r := Without(c, drop);
    if x in r.count {
      RemoveMore(c.order, drop, x);
      assert c.count - drop - {x} == c.count - (drop + {x});
    } else {
      RemoveAbsent(c.order, drop, x);
      assert c.count - (drop + {x}) == c.count - drop;
    }
  }

  /** analysis.py lines 106-108: `for sw in stopwords: if sw in c: del c[sw]`.
      The set is iterated in an unspecified order; the result does not depend
      on it. */
  method DeleteStopwords<K(==,!new)>(c: Counts<K>, stopwords: set<K>) returns (r: Counts<K>)
    requires Valid(c)
    ensures r == Without(c, stopwords)
    ensures forall sw :: sw in stopwords ==> sw !in r.count
    ensures forall k :: k in r.count <==> k in c.count && k !in stopwords
    ensures forall k :: k in r.count ==> r.count[k] == c.count[k]
  {
    r := c;
    var pending := stopwords;
    WithoutNothing(c);
    assert stopwords - pending == {};
    while pending != {}
      invariant pending <= stopwords
      invariant r == Without(c, stopwords - pending)
      decreases pending
    {
      var sw :| sw in pending;
      WithoutOneMore(c, stopwords - pending, sw);
      if sw in r.count {
        r := Delete(r, sw);
      }
      assert stopwords - (pending - {sw}) == (stopwords - pending) + {sw};
      pending := pending - {sw};
    }
    assert stopwords - pending == stopwords;
  }

  /** app.py lines 58-59: `for w in stopwords: counts.pop(w, None)`. */
  method PopStopwords<K(==,!new)>(c: Counts<K>, stopwords: set<K>) returns (r: Counts<K>)
    requires Valid(c)
    ensures r == Without(c, stopwords)
    ensures forall sw :: sw in stopwords ==> sw !in r.count
    ensures forall k :: k in r.count <==> k in c.count && k !in stopwords
    ensures forall k :: k in r.count ==> r.count[k] == c.count[k]
  {
    r := c;
    var pending := stopwords;
    WithoutNothing(c);
    assert stopwords - pending == {};
    while pending != {}
      invariant pending <= stopwords
      invariant r == Without(c, stopwords - pending)
      decreases pending
    {
      var w :| w in pending;
      WithoutOneMore(c, stopwords - pending, w);
      var popped;
      r, popped := Pop(r, w).0, Pop(r, w).1;
      assert stopwords - (pending - {w}) == (stopwords - pending) + {w};
      pending := pending - {w};
    }
    assert stopwords - pending == stopwords;
  }

  // ----- value_counts().sort_index() on integer keys -----

  predicate StrictlyAscending(h: seq<(int, nat)>) {
    forall i, j :: 0 <= i < j < |h| ==> h[i].0 < h[j].0
  }

  function Keys(h: seq<(int, nat)>): (ks: seq<int>)
    ensures |ks| == |h| && forall i :: 0 <= i < |h| ==> ks[i] == h[i].0
  {
    seq(|h|, i requires 0 <= i < |h| => h[i].0)
  }

  /** The count a histogram records for `k`, 0 when `k` has no entry. */
  function CountFor(h: seq<(int, nat)>, k: int): nat {
    if h == [] then 0 else if h[0].0 == k then h[0].1 else CountFor(h[1..], k)
  }

  function Total(h: seq<(int, nat)>): nat {
    if h == [] then 0 else h[0].1 + Total(h[1..])
  }

  /** One more occurrence of `y`, keeping the keys ascending. */
  function Bump(h: seq<(int, nat)>, y: int): seq<(int, nat)> {
    if h == [] then [(y, 1)]
    else if y < h[0].0 then [(y, 1)] + h
    else if y == h[0].0 then [(y, h[0].1 + 1)] + h[1..]
    else [h[0]] + Bump(h[1..], y)
  }

  lemma {:induction false} CountForAbsent(h: seq<(int, nat)>, k: int)
    requires k !in Keys(h)
    ensures CountFor(h, k) == 0
  {
    if h != [] {
      assert Keys(h[1..]) == Keys(h)[1..];
      CountForAbsent(h[1..], k);
    }
  }

  lemma KeysCons(p: (int, nat), h: seq<(int, nat)>)
    ensures Keys([p] + h) == [p.0] + Keys(h)
  {
    assert forall i :: 0 <= i < |h| + 1 ==> Keys([p] + h)[i] == ([p.0] + Keys(h))[i];
  }

  lemma MemberOfCons(s: seq<int>, x: int, rest: seq<int>)
    requires s == [x] + rest
    ensures forall k :: k in s <==> k == x || k in rest
  {
  }

  lemma {:induction false} BumpKeys(h: seq<(int, nat)>, y: int)
    ensures forall k :: k in Keys(Bump(h, y)) <==> k in Keys(h) || k == y
  {
    if h == [] {
      assert Bump(h, y) == [(y, 1)] + h;
      KeysCons((y, 1), h);
      MemberOfCons(Keys(Bump(h, y)), y, Keys(h));
    } else {
      var p, t := h[0], h[1..];
      assert h == [p] + t;
      KeysCons(p, t);
      MemberOfCons(Keys(h), p.0, Keys(t));
      if y < p.0 {
        assert Bump(h, y) == [(y, 1)] + h;
        KeysCons((y, 1), h);
        MemberOfCons(Keys(Bump(h, y)), y, Keys(h));
      } else if y == p.0 {
        assert Bump(h, y) == [(y, p.1 + 1)] + t;
        KeysCons((y, p.1 + 1), t);
        MemberOfCons(Keys(Bump(h, y)), y, Keys(t));
      } else {
        assert Bump(h, y) == [p] + Bump(t, y);
        KeysCons(p, Bump(t, y));
        MemberOfCons(Keys(Bump(h, y)), p.0, Keys(Bump(t, y)));
        BumpKeys(t, y);
      }
    }
  }

  lemma {:induction false} BumpAscending(h: seq<(int, nat)>, y: int)
    requires StrictlyAscending(h)
    ensures StrictlyAscending(Bump(h, y))
  {
    if h != [] && y > h[0].0 {
      BumpAscending(h[1..], y);
      BumpKeys(h[1..], y);
      var b, rest := Bump(h, y), Bump(h[1..], y);
      forall j | 0 < j < |b| ensures h[0].0 < b[j].0 {
        assert b[j].0 == Keys(rest)[j - 1];
        if b[j].0 != y {
          assert b[j].0 in Keys(h[1..]);
          var i :| 0 <= i < |h[1..]| && Keys(h[1..])[i] == b[j].0;
          assert h[i + 1].0 == b[j].0;
        }
      }
    }
  }

  lemma {:induction false} BumpCountFor(h: seq<(int, nat)>, y: int)
    requires StrictlyAscending(h)
    ensures forall k :: CountFor(Bump(h, y), k) == CountFor(h, k) + (if k == y then 1 else 0)
  {
    if h == [] {
    } else if y < h[0].0 {
      assert y !in Keys(h);
      CountForAbsent(h, y);
    } else if y > h[0].0 {
      BumpCountFor(h[1..], y);
    }
  }

  lemma {:induction false} BumpTotal(h: seq<(int, nat)>, y: int)
    ensures Total(Bump(h, y)) == Total(h) + 1
  {
    if h != [] && y > h[0].0 {
      BumpTotal(h[1..], y);
    } else if h != [] && y < h[0].0 {
      assert Bump(h, y)[1..] == h;
    } else if h != [] {
      assert Bump(h, y)[1..] == h[1..];
    }
  }

  lemma {:induction false} BumpPositive(h: seq<(int, nat)>, y: int)
    requires forall i :: 0 <= i < |h| ==> h[i].1 >= 1
    ensures forall i :: 0 <= i < |Bump(h, y)| ==> Bump(h, y)[i].1 >= 1
  {
    if h != [] && y > h[0].0 {
      BumpPositive(h[1..], y);
      assert forall i :: 1 <= i < |Bump(h, y)| ==> Bump(h, y)[i] == Bump(h[1..], y)[i - 1];
    } else if h != [] && y < h[0].0 {
      assert forall i :: 1 <= i < |Bump(h, y)| ==> Bump(h, y)[i] == h[i - 1];
    }
  }

  /** `value_counts().sort_index()` on integer values. */
  function Histogram(ys: seq<int>): seq<(int, nat)> {
    if ys == [] then [] else Bump(Histogram(ys[1..]), ys[0])
  }

  lemma {:induction false} HistogramAscending(ys: seq<int>)
    ensures StrictlyAscending(Histogram(ys))
    ensures forall i :: 0 <= i < |Histogram(ys)| ==> Histogram(ys)[i].1 >= 1
  {
    if ys != [] {
      HistogramAscending(ys[1..]);
      BumpAscending(Histogram(ys[1..]), ys[0]);
      BumpPositive(Histogram(ys[1..]), ys[0]);
    }
  }

  lemma {:induction false} HistogramKeys(ys: seq<int>)
    ensures forall k :: k in Keys(Histogram(ys)) <==> k in ys
  {
    if ys != [] {
      HistogramKeys(ys[1..]);
      BumpKeys(Histogram(ys[1..]), ys[0]);
      assert ys == [ys[0]] + ys[1..];
    }
  }

  lemma {:induction false} HistogramCountFor(ys: seq<int>)
    ensures forall k :: CountFor(Histogram(ys), k) == multiset(ys)[k]
  {
    if ys != [] {
      HistogramCountFor(ys[1..]);
      HistogramAscending(ys[1..]);
      BumpCountFor(Histogram(ys[1..]), ys[0]);
      assert ys == [ys[0]] + ys[1..];
    }
  }

  lemma {:induction false} HistogramTotal(ys: seq<int>)
    ensures Total(Histogram(ys)) == |ys|
  {
    if ys != [] {
      HistogramTotal(ys[1..]);
      BumpTotal(Histogram(ys[1..]), ys[0]);
    }
  }

  /** The histogram has one entry per distinct value, keys ascending, each
      entry counting the occurrences of its key; the counts add up to the
      number of values. */
  lemma HistogramCounts(ys: seq<int>)
    ensures var h := Histogram(ys);
      && StrictlyAscending(h)
      && (forall i :: 0 <= i < |h| ==> h[i].1 >= 1)
      && (forall k :: k in Keys(h) <==> k in ys)
      && (forall k :: CountFor(h, k) == multiset(ys)[k])
      && Total(h) == |ys|
  {
    HistogramAscending(ys);
    HistogramKeys(ys);
    HistogramCountFor(ys);
    HistogramTotal(ys);
  }

  lemma HistogramExample()
    ensures Histogram([]) == []
    ensures Histogram([2020, 2020, 2021]) == [(2020, 2), (2021, 1)]
  {
  }
}
