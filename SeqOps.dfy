/** Sequence operations standing for the pandas and Python list primitives the
    recommender is built from: `unique()` and `drop_duplicates(keep='first')`,
    `value_counts()`, `sort_values(ascending=False)` and the slice `[:n]`. */
module SeqOps {

  /** No element occurs twice. */
  ghost predicate NoDups<T>(s: seq<T>) {
    forall i, j :: 0 <= i < j < |s| ==> s[i] != s[j]
  }

  /** The slice `s[:n]`: the first n elements, or all of s when it is shorter. */
  function Take<T>(s: seq<T>, n: nat): (r: seq<T>)
    ensures |r| == if |s| <= n then |s| else n
    ensures r == s[..|r|]
  {
    if |s| <= n then s else s[..n]
  }

  /** The elements of s that are not in `excluded`, each kept at its first
      appearance only, in the order of s. With `excluded == {}` this is
      `unique()` / `drop_duplicates(keep='first')`; with a non-empty set it is
      the "not already recommended and not already read" filter of the
      recommendation loops. */
  function Novel<T(==,!new)>(s: seq<T>, excluded: set<T>): (r: seq<T>)
    ensures NoDups(r)
    ensures forall x :: x in r <==> x in s && x !in excluded
    ensures |r| <= |s|
  {
    if s == [] then []
    else
      var p := Novel(s[..|s| - 1], excluded);
      var x := s[|s| - 1];
      if x in excluded || x in p then p else p + [x]
  }

  /** `unique()`: the distinct elements of s in order of first appearance. */
  function Distinct<T(==,!new)>(s: seq<T>): (r: seq<T>)
    ensures NoDups(r)
    ensures forall x :: x in r <==> x in s
  {
    Novel(s, {})
  }

  /** A sequence without repetitions is its own `unique()`. */
  lemma {:induction false} DistinctOfNoDups<T(!new)>(s: seq<T>)
    requires NoDups(s)
    ensures Distinct(s) == s
  {
    if s != [] {
      var init, x := s[..|s| - 1], s[|s| - 1];
      assert NoDups(init) by {
        forall i, j | 0 <= i < j < |init| ensures init[i] != init[j] {
          assert init[i] == s[i] && init[j] == s[j];
        }
      }
      assert x !in init by {
        forall k | 0 <= k < |init| ensures init[k] != x {
          assert init[k] == s[k];
        }
      }
      DistinctOfNoDups(init);
      assert s == init + [x];
      NovelSnoc(init, x, {});
    }
  }

  /** `unique()` over one more element of s: it is added at the end exactly
      when it was not seen before. */
  lemma DistinctStep<T(!new)>(s: seq<T>, i: nat)
    requires i < |s|
    ensures Distinct(s[..i + 1])
         == if s[i] in Distinct(s[..i]) then Distinct(s[..i]) else Distinct(s[..i]) + [s[i]]
  {
    assert s[..i + 1][..i] == s[..i];
  }

  /** A non-empty sequence is its prefix and its last element: the same
      members and the same multiset. */
  lemma LastSplit<T>(s: seq<T>)
    requires s != []
    ensures forall y :: y in s <==> y in s[..|s| - 1] || y == s[|s| - 1]
    ensures multiset(s) == multiset(s[..|s| - 1]) + multiset{s[|s| - 1]}
  {
    assert s == s[..|s| - 1] + [s[|s| - 1]];
  }

  /** One more candidate: it is collected exactly when it is neither excluded
      nor already collected. */
  lemma NovelSnoc<T(!new)>(s: seq<T>, x: T, excluded: set<T>)
    ensures Novel(s + [x], excluded)
         == if x in excluded || x in Novel(s, excluded) then Novel(s, excluded)
            else Novel(s, excluded) + [x]
  {
    assert (s + [x])[..|s + [x]| - 1] == s;
  }

  /** Collecting over a longer candidate list only appends. */
  lemma {:induction false} NovelPrefix<T(!new)>(s: seq<T>, t: seq<T>, excluded: set<T>)
    ensures Novel(s, excluded) <= Novel(s + t, excluded)
  {
    if t == [] {
      assert s + t == s;
    } else {
      var t' := t[..|t| - 1];
      NovelPrefix(s, t', excluded);
      assert s + t == (s + t') + [t[|t| - 1]];
      NovelSnoc(s + t', t[|t| - 1], excluded);
    }
  }

  /** Once n items are collected, later candidates change nothing: this is why
      the recommendation loops may `break` as soon as the list is full. */
  lemma CollectedSettles<T(!new)>(s: seq<T>, t: seq<T>, excluded: set<T>, n: nat)
    requires |Novel(s, excluded)| >= n
    ensures Take(Novel(s + t, excluded), n) == Take(Novel(s, excluded), n)
  {
    NovelPrefix(s, t, excluded);
  }

  /** What the greedy "collect up to n new items" loops promise: at most n
      items, none twice, none excluded, every one a candidate; fewer than n only
      when every eligible candidate was taken. */
  lemma {:induction false} CollectedProperties<T(!new)>(s: seq<T>, excluded: set<T>, n: nat)
    ensures var r := Take(Novel(s, excluded), n);
      && |r| <= n
      && NoDups(r)
      && (forall x :: x in r ==> x in s && x !in excluded)
      && (|r| < n ==> forall x :: x in s && x !in excluded ==> x in r)
  {
    var r := Take(Novel(s, excluded), n);
    assert r == Novel(s, excluded)[..|r|];
    forall x | x in r ensures x in Novel(s, excluded) {
      var k :| 0 <= k < |r| && r[k] == x;
      assert Novel(s, excluded)[k] == x;
    }
  }

  /** The first elements of each pair. */
  function Keys<K, V>(s: seq<(K, V)>): (r: seq<K>)
    ensures |r| == |s|
    ensures forall i :: 0 <= i < |s| ==> r[i] == s[i].0
  {
    seq(|s|, i requires 0 <= i < |s| => s[i].0)
  }

  /** `value_counts()` before its ordering: each distinct value paired with its
      number of occurrences, in order of first appearance. */
  function ValueCounts<T(==,!new)>(s: seq<T>): (r: seq<(T, int)>)
    ensures Keys(r) == Distinct(s)
    ensures forall i :: 0 <= i < |r| ==> r[i].1 == multiset(s)[r[i].0]
  {
    var d := Distinct(s);
    seq(|d|, i requires 0 <= i < |d| => (d[i], multiset(s)[d[i]]))
  }

  /** Scores never increase from left to right. */
  ghost predicate NonIncreasing<T>(s: seq<(T, int)>) {
    forall i, j :: 0 <= i < j < |s| ==> s[i].1 >= s[j].1
  }

  function InsertDescending<T(==,!new)>(x: (T, int), s: seq<(T, int)>): (r: seq<(T, int)>)
    requires NonIncreasing(s)
    ensures |r| == |s| + 1 && (r[0] == x || (s != [] && r[0] == s[0]))
    ensures NonIncreasing(r)
    ensures multiset(r) == multiset(s) + multiset{x}
    ensures multiset(Keys(r)) == multiset(Keys(s)) + multiset{x.0}
  {
    if s == [] || x.1 >= s[0].1 then
      KeysCons(x, s);
      [x] + s
    else
      var t := InsertDescending(x, s[1..]);
      InsertBelow(x, s, t);
      [s[0]] + t
  }

  /** Inserting below the head: the head stays first and the tail takes x. */
  lemma InsertBelow<T(!new)>(x: (T, int), s: seq<(T, int)>, t: seq<(T, int)>)
    requires NonIncreasing(s) && s != [] && x.1 < s[0].1
    requires |t| == |s| && (t[0] == x || (|s| > 1 && t[0] == s[1]))
    requires NonIncreasing(t)
    requires multiset(t) == multiset(s[1..]) + multiset{x}
    requires multiset(Keys(t)) == multiset(Keys(s[1..])) + multiset{x.0}
    ensures NonIncreasing([s[0]] + t)
    ensures multiset([s[0]] + t) == multiset(s) + multiset{x}
    ensures multiset(Keys([s[0]] + t)) == multiset(Keys(s)) + multiset{x.0}
  {
    assert s == [s[0]] + s[1..];
    KeysCons(s[0], s[1..]);
    KeysCons(s[0], t);
    ConsNonIncreasing(s[0], t);
  }

  lemma KeysCons<K, V>(x: (K, V), s: seq<(K, V)>)
    ensures Keys([x] + s) == [x.0] + Keys(s)
  {
  }

  lemma ConsNonIncreasing<T>(x: (T, int), s: seq<(T, int)>)
    requires NonIncreasing(s) && (s != [] ==> x.1 >= s[0].1)
    ensures NonIncreasing([x] + s)
  {
  }

  /** `sort_values(ascending=False)` on a series given as (index, value)
      pairs. pandas' default sort is not stable, so the order among equal
      values is unspecified; this insertion sort fixes one such order. */
  function SortDescending<T(==,!new)>(s: seq<(T, int)>): (r: seq<(T, int)>)
    ensures NonIncreasing(r)
    ensures multiset(r) == multiset(s)
    ensures multiset(Keys(r)) == multiset(Keys(s))
  {
    if s == [] then []
    else
      ConsMultisets(s);
      InsertDescending(s[0], SortDescending(s[1..]))
  }

  lemma ConsMultisets<T>(s: seq<(T, int)>)
    requires s != []
    ensures multiset(s) == multiset(s[1..]) + multiset{s[0]}
    ensures multiset(Keys(s)) == multiset(Keys(s[1..])) + multiset{s[0].0}
  {
    assert s == [s[0]] + s[1..];
    KeysCons(s[0], s[1..]);
  }

  lemma {:induction false} NoDupsAtMostOnce<T(!new)>(s: seq<T>, x: T)
    requires NoDups(s)
    ensures multiset(s)[x] <= 1
  {
    if s != [] {
      assert s == [s[0]] + s[1..];
      NoDupsAtMostOnce(s[1..], x);
      assert s[0] == x ==> x !in s[1..];
    }
  }

  /** A reordering of a duplicate-free sequence is duplicate-free. */
  lemma NoDupsPermutation<T(!new)>(a: seq<T>, b: seq<T>)
    requires NoDups(a) && multiset(a) == multiset(b)
    ensures NoDups(b)
  {
    forall i, j | 0 <= i < j < |b| ensures b[i] != b[j] {
      var v := b[i];
      NoDupsAtMostOnce(a, v);
      assert b == b[..j] + b[j..];
      assert v in b[..j];
      assert multiset(b)[v] == multiset(b[..j])[v] + multiset(b[j..])[v];
      assert b[j] in b[j..];
    }
  }

  /** `s.value_counts().sort_values(ascending=False).index.tolist()`: every
      distinct value of s once, most frequent first. */
  function RankByCount<T(==,!new)>(s: seq<T>): (r: seq<T>)
    ensures NoDups(r)
    ensures forall x :: x in r <==> x in s
    ensures forall i, j :: 0 <= i < j < |r| ==> multiset(s)[r[i]] >= multiset(s)[r[j]]
  {
    var counts := ValueCounts(s);
    var ranked := SortDescending(counts);
    RankedKeys(s, counts, ranked);
    Keys(ranked)
  }

  lemma RankedKeys<T(!new)>(s: seq<T>, counts: seq<(T, int)>, ranked: seq<(T, int)>)
    requires Keys(counts) == Distinct(s)
    requires forall i :: 0 <= i < |counts| ==> counts[i].1 == multiset(s)[counts[i].0]
    requires NonIncreasing(ranked)
    requires multiset(ranked) == multiset(counts)
    requires multiset(Keys(ranked)) == multiset(Keys(counts))
    ensures NoDups(Keys(ranked))
    ensures forall x :: x in Keys(ranked) <==> x in s
    ensures forall i, j :: 0 <= i < j < |ranked| ==> multiset(s)[Keys(ranked)[i]] >= multiset(s)[Keys(ranked)[j]]
  {
    NoDupsPermutation(Keys(counts), Keys(ranked));
    forall x ensures x in Keys(ranked) <==> x in s {
      assert x in Keys(ranked) <==> x in multiset(Keys(ranked));
      assert x in Keys(counts) <==> x in multiset(Keys(counts));
    }
    forall i | 0 <= i < |ranked| ensures ranked[i].1 == multiset(s)[ranked[i].0] {
      assert ranked[i] in multiset(counts);
    }
  }

  /** The first n of a count ranking are the n most frequent values: whatever
      was cut off occurs no more often than anything that was kept. */
  lemma TopCountsFirst<T(!new)>(s: seq<T>, n: nat, x: T, i: nat)
    requires x in s && x !in Take(RankByCount(s), n)
    requires i < |Take(RankByCount(s), n)|
    ensures multiset(s)[Take(RankByCount(s), n)[i]] >= multiset(s)[x]
  {
    var r := RankByCount(s);
    var k :| 0 <= k < |r| && r[k] == x;
    assert Take(r, n) == r[..|Take(r, n)|];
    assert forall p :: 0 <= p < |Take(r, n)| ==> Take(r, n)[p] != x;
    assert i < k;
  }
  /** The lists one after another. */
  function Flatten<T(!new)>(lists: seq<seq<T>>): (r: seq<T>)
    ensures forall x :: x in r <==> exists k :: 0 <= k < |lists| && x in lists[k]
  {
    if lists == [] then []
    else
      var init := lists[..|lists| - 1];
      assert forall k :: 0 <= k < |init| ==> init[k] == lists[k];
      Flatten(init) + lists[|lists| - 1]
  }

  /** The lists read up to list i come first in the concatenation. */
  lemma {:induction false} FlattenGrows<T(!new)>(lists: seq<seq<T>>, i: nat)
    requires i <= |lists|
    ensures Flatten(lists[..i]) <= Flatten(lists)
    decreases |lists| - i
  {
    if i < |lists| {
      FlattenGrows(lists, i + 1);
      assert lists[..i + 1][..i] == lists[..i];
      assert Flatten(lists[..i + 1]) == Flatten(lists[..i]) + lists[i];
    } else {
      assert lists[..i] == lists;
    }
  }
}
