/** model/recommender.py: collaborative filtering over a user-item presence
    matrix, the selection step of the content recommender, and the popularity
    ranking shown to new users. */
module Recommender {
  import opened Wrappers
  import opened SeqOps
  import opened Frame

  // ------------------------------------------------------------------------
  // The shared selection loop
  // ------------------------------------------------------------------------

  /** One step of the selection loop: the candidate is appended exactly when it
      is new, not excluded and the list is not yet full. */
  lemma CollectStep<T(!new)>(s: seq<T>, x: T, excluded: set<T>, n: nat, picked: seq<T>)
    requires picked == Take(Novel(s, excluded), n)
    ensures Take(Novel(s + [x], excluded), n)
         == if x !in picked && x !in excluded && |picked| < n then picked + [x] else picked
  {
    NovelSnoc(s, x, excluded);
    if |picked| >= n {
      CollectedSettles(s, [x], excluded, n);
    }
  }

  /** The same step, stated on the prefix of the list read so far. */
  lemma CollectNext<T(!new)>(done: seq<T>, list: seq<T>, j: nat, excluded: set<T>, n: nat, picked: seq<T>)
    requires j < |list|
    requires picked == Take(Novel(done + list[..j], excluded), n)
    ensures Take(Novel(done + list[..j + 1], excluded), n)
         == if list[j] !in picked && list[j] !in excluded && |picked| < n then picked + [list[j]] else picked
  {
    assert done + list[..j + 1] == (done + list[..j]) + [list[j]];
    CollectStep(done + list[..j], list[j], excluded, n, picked);
  }

  lemma SplitAt<T>(done: seq<T>, list: seq<T>, k: nat)
    requires k <= |list|
    ensures (done + list[..k]) + list[k..] == done + list
  {
    assert list[..k] + list[k..] == list;
  }

  /** The inner loop of the selection: walk one user's (or one seed's) list,
      appending what is new and unread, and stop once n are collected. */
  method CollectFrom<T(==,!new)>(list: seq<T>, read: seq<T>, n: nat, ghost done: seq<T>, picked: seq<T>)
    returns (recommendations: seq<T>)
    requires picked == Take(Novel(done, set x | x in read), n)
    ensures recommendations == Take(Novel(done + list, set x | x in read), n)
  {
    ghost var excluded := set x | x in read;
    recommendations := picked;
    var j := 0;
    ghost var consumed := done;
    assert done + list[..0] == done;
    while j < |list|
      invariant 0 <= j <= |list|
      invariant consumed == done + list[..j]
      invariant recommendations == Take(Novel(consumed, excluded), n)
    {
      var article := list[j];
      ghost var expected := Take(Novel(done + list[..j + 1], excluded), n);
      assert expected == if article !in recommendations && article !in read && |recommendations| < n
                         then recommendations + [article] else recommendations by {
        CollectNext(done, list, j, excluded, n, recommendations);
        assert article in excluded <==> article in read;
      }
      if article !in recommendations && article !in read {
        if |recommendations| < n {
          recommendations := recommendations + [article];
        }
      }
      consumed := done + list[..j + 1];
      if |recommendations| >= n {
        assert recommendations == Take(Novel(done + list, excluded), n) by {
          SplitAt(done, list, j + 1);
          CollectedSettles(consumed, list[j + 1..], excluded, n);
        }
        return;
      }
      j := j + 1;
    }
    assert list[..j] == list;
  }

  /** The nested loop of `make_collaborative_recs` (lines 42-52) and of
      `make_content_recs` (lines 124-135): walk the candidate lists in order
      and append every candidate that is not yet recommended and not read,
      stopping as soon as n are collected. The result is the first n distinct
      unread candidates. */
  method Collect<T(==,!new)>(lists: seq<seq<T>>, read: seq<T>, n: nat) returns (recommendations: seq<T>)
    ensures recommendations == Take(Novel(Flatten(lists), set x | x in read), n)
  {
    ghost var excluded := set x | x in read;
    recommendations := [];
    var i := 0;
    while i < |lists|
      invariant 0 <= i <= |lists|
      invariant recommendations == Take(Novel(Flatten(lists[..i]), excluded), n)
    {
      ghost var upto := Flatten(lists[..i + 1]);
      assert upto == Flatten(lists[..i]) + lists[i] by {
        assert lists[..i + 1][..i] == lists[..i];
      }
      recommendations := CollectFrom(lists[i], read, n, Flatten(lists[..i]), recommendations);
      if |recommendations| >= n {
        assert recommendations == Take(Novel(Flatten(lists), excluded), n) by {
          FlattenGrows(lists, i + 1);
          assert upto + Flatten(lists)[|upto|..] == Flatten(lists);
          CollectedSettles(upto, Flatten(lists)[|upto|..], excluded, n);
        }
        break;
      }
      i := i + 1;
    }
    if i == |lists| {
      assert lists[..i] == lists;
    }
  }

  // ------------------------------------------------------------------------
  // Collaborative filtering (class Collaborative)
  // ------------------------------------------------------------------------

  /** The user-item matrix: one row per user and one column per article, both
      in ascending id order as `groupby(...).unstack()` lays them out. */
  datatype Matrix = Matrix(users: seq<int>, articles: seq<int>, cells: seq<seq<int>>)

  ghost predicate StrictlyIncreasing(s: seq<int>) {
    forall i, j :: 0 <= i < j < |s| ==> s[i] < s[j]
  }

  function InsertAscending(x: int, s: seq<int>): (r: seq<int>)
    requires StrictlyIncreasing(s)
    ensures StrictlyIncreasing(r)
    ensures forall y :: y in r <==> y == x || y in s
    ensures r != [] && (r[0] == x || (s != [] && r[0] == s[0]))
  {
    if s == [] || x < s[0] then [x] + s
    else if x == s[0] then s
    else [s[0]] + InsertAscending(x, s[1..])
  }

  /** The keys of a `groupby`: the distinct values, in ascending order. */
  function GroupKeys(s: seq<int>): (r: seq<int>)
    ensures StrictlyIncreasing(r)
    ensures forall y :: y in r <==> y in s
  {
    if s == [] then []
    else
      assert s == s[..|s| - 1] + [s[|s| - 1]];
      InsertAscending(s[|s| - 1], GroupKeys(s[..|s| - 1]))
  }

  /** `df.user_id`: the user of every row, row by row. */
  function UserColumn(df: seq<Row>): (r: seq<int>)
    ensures |r| == |df|
    ensures forall i :: 0 <= i < |df| ==> r[i] == df[i].user
    ensures forall u :: u in r <==> exists x :: x in df && x.user == u
  {
    if df == [] then []
    else
      assert df == df[..|df| - 1] + [df[|df| - 1]];
      UserColumn(df[..|df| - 1]) + [df[|df| - 1].user]
  }

  function ArticleColumn(df: seq<Row>): (r: seq<int>)
    ensures forall a :: a in r <==> exists x :: x in df && x.article == a
  {
    if df == [] then []
    else
      assert df == df[..|df| - 1] + [df[|df| - 1]];
      ArticleColumn(df[..|df| - 1]) + [df[|df| - 1].article]
  }

  /** The positions of u's rows, in ascending order. */
  ghost function RowsOf(df: seq<Row>, u: int): (r: seq<nat>)
    ensures forall p :: 0 <= p < |r| ==> r[p] < |df| && df[r[p]].user == u
    ensures forall k :: 0 <= k < |df| && df[k].user == u ==> k in r
    ensures forall p, q :: 0 <= p < q < |r| ==> r[p] < r[q]
  {
    if df == [] then []
    else
      var p := RowsOf(df[..|df| - 1], u);
      if df[|df| - 1].user == u then p + [|df| - 1] else p
  }

  /** `df.article_id[df.user_id == u]`: the articles of u's rows in row order,
      repeated reads included. */
  function ArticlesOf(df: seq<Row>, u: int): (r: seq<int>)
    ensures forall a :: a in r <==> exists x :: x in df && x.user == u && x.article == a
  {
    if df == [] then []
    else
      var init, x := df[..|df| - 1], df[|df| - 1];
      var p := ArticlesOf(init, u);
      var r := if x.user == u then p + [x.article] else p;
      assert forall a :: a in r <==> exists y :: y in df && y.user == u && y.article == a by {
        assert df == init + [x];
      }
      r
  }

  /** u's articles are the articles of u's rows, one per row, in row order. */
  lemma {:induction false} ArticlesOfInRowOrder(df: seq<Row>, u: int)
    ensures |ArticlesOf(df, u)| == |RowsOf(df, u)|
    ensures forall p :: 0 <= p < |RowsOf(df, u)| ==> ArticlesOf(df, u)[p] == df[RowsOf(df, u)[p]].article
  {
    if df != [] {
      var init, x := df[..|df| - 1], df[|df| - 1];
      ArticlesOfInRowOrder(init, u);
      var rows, r := RowsOf(df, u), ArticlesOf(df, u);
      forall p | 0 <= p < |RowsOf(init, u)| ensures r[p] == df[rows[p]].article {
        assert init[RowsOf(init, u)[p]] == df[RowsOf(init, u)[p]];
      }
    }
  }

  /** The positions of the rows in which u read a. */
  ghost function ReadsOf(df: seq<Row>, u: int, a: int): set<nat> {
    set i: nat | i < |df| && df[i].user == u && df[i].article == a
  }

  /** `value_counts()` on u's articles counts reads: an article occurs in
      them once for every row in which u read it. */
  lemma {:induction false} ArticlesOfCounts(df: seq<Row>, u: int, a: int)
    ensures multiset(ArticlesOf(df, u))[a] == |ReadsOf(df, u, a)|
  {
    if df != [] {
      var init := df[..|df| - 1];
      ArticlesOfCounts(init, u, a);
      ArticlesOfSnoc(df, u);
      ReadsOfSnoc(df, u, a);
    }
  }

  /** The articles of u's rows gain the last row's article when it is u's. */
  lemma ArticlesOfSnoc(df: seq<Row>, u: int)
    requires df != []
    ensures var x := df[|df| - 1];
      multiset(ArticlesOf(df, u))
        == multiset(ArticlesOf(df[..|df| - 1], u)) + if x.user == u then multiset{x.article} else multiset{}
  {
  }

  /** The reads of a by u gain the last position when that row is one. */
  lemma ReadsOfSnoc(df: seq<Row>, u: int, a: int)
    requires df != []
    ensures var n, x := |df| - 1, df[|df| - 1];
      |ReadsOf(df, u, a)| == |ReadsOf(df[..n], u, a)| + if x.user == u && x.article == a then 1 else 0
  {
    var n, x := |df| - 1, df[|df| - 1];
    var known := ReadsOf(df[..n], u, a);
    var last: set<nat> := if x.user == u && x.article == a then {n} else {};
    assert ReadsOf(df, u, a) == known + last by {
      forall i: nat | i < n ensures i in ReadsOf(df, u, a) <==> i in known {
        assert df[..n][i] == df[i];
      }
    }
    assert n !in known;
  }

  /** The articles u has read at least once. */
  ghost function ReadSet(df: seq<Row>, u: int): set<int> {
    set x | x in df && x.user == u :: x.article
  }

  /** How many articles both t and u have read. */
  ghost function CoRead(df: seq<Row>, t: int, u: int): nat {
    |ReadSet(df, t) * ReadSet(df, u)|
  }

  /** Cell (u, a): the mean of the constant `ones` column over the rows of the
      (u, a) group is 1 when the group has a row; `unstack` leaves the other
      cells empty and they are then set to 0. */
  function Presence(df: seq<Row>, u: int, a: int): int {
    if a in ArticlesOf(df, u) then 1 else 0
  }

  function PresenceRow(df: seq<Row>, u: int, articles: seq<int>): (r: seq<int>)
    ensures |r| == |articles|
  {
    seq(|articles|, j requires 0 <= j < |articles| => Presence(df, u, articles[j]))
  }

  /** `get_user_by_item`: every cell is 0 or 1, and it is 1 exactly when the
      user has at least one row for the article. */
  function GetUserByItem(df: seq<Row>): (m: Matrix)
    ensures StrictlyIncreasing(m.users)
    ensures forall u :: u in m.users <==> exists x :: x in df && x.user == u
    ensures StrictlyIncreasing(m.articles)
    ensures forall a :: a in m.articles <==> exists x :: x in df && x.article == a
    ensures |m.cells| == |m.users|
    ensures forall i :: 0 <= i < |m.users| ==> |m.cells[i]| == |m.articles|
    ensures forall i, j :: 0 <= i < |m.users| && 0 <= j < |m.articles| ==>
      (m.cells[i][j] == 0 || m.cells[i][j] == 1) &&
      (m.cells[i][j] == 1 <==> exists x :: x in df && x.user == m.users[i] && x.article == m.articles[j])
  {
    var users := GroupKeys(UserColumn(df));
    var articles := GroupKeys(ArticleColumn(df));
    Matrix(users, articles, seq(|users|, i requires 0 <= i < |users| => PresenceRow(df, users[i], articles)))
  }

  /** `np.dot` of two matrix rows. */
  function Dot(x: seq<int>, y: seq<int>): int
    requires |x| == |y|
  {
    if x == [] then 0 else x[0] * y[0] + Dot(x[1..], y[1..])
  }

  lemma PresenceIsRead(df: seq<Row>, u: int, a: int)
    ensures Presence(df, u, a) == if a in ReadSet(df, u) then 1 else 0
  {
    if a in ArticlesOf(df, u) {
      var x :| x in df && x.user == u && x.article == a;
      assert a in ReadSet(df, u);
    }
  }

  lemma NoDupsTail(s: seq<int>)
    requires NoDups(s) && s != []
    ensures NoDups(s[1..]) && s[0] !in s[1..]
  {
    forall k | 0 <= k < |s| - 1 ensures s[1..][k] != s[0] {
      assert s[1..][k] == s[k + 1];
    }
  }

  lemma CardinalitySplit(a0: int, tail: set<int>, both: set<int>)
    requires a0 !in tail
    ensures |({a0} + tail) * both| == |{a0} * both| + |tail * both|
  {
    assert ({a0} + tail) * both == ({a0} * both) + (tail * both);
    assert ({a0} * both) !! (tail * both);
  }

  lemma DotStep(df: seq<Row>, u: int, t: int, articles: seq<int>)
    requires articles != []
    ensures Dot(PresenceRow(df, u, articles), PresenceRow(df, t, articles))
         == Presence(df, u, articles[0]) * Presence(df, t, articles[0])
            + Dot(PresenceRow(df, u, articles[1..]), PresenceRow(df, t, articles[1..]))
  {
    assert PresenceRow(df, u, articles)[1..] == PresenceRow(df, u, articles[1..]);
    assert PresenceRow(df, t, articles)[1..] == PresenceRow(df, t, articles[1..]);
  }

  lemma SharedStep(articles: seq<int>, both: set<int>)
    requires NoDups(articles) && articles != []
    ensures |(set a | a in articles) * both|
         == (if articles[0] in both then 1 else 0) + |(set a | a in articles[1..]) * both|
  {
    var a0, rest := articles[0], articles[1..];
    NoDupsTail(articles);
    assert (set a | a in articles) == {a0} + (set a | a in rest);
    CardinalitySplit(a0, (set a | a in rest), both);
    if a0 in both {
      assert {a0} * both == {a0};
    } else {
      assert {a0} * both == {};
    }
  }

  /** For 0/1 rows over distinct articles the dot product counts the articles
      both users have read. */
  lemma {:induction false} DotCountsShared(df: seq<Row>, u: int, t: int, articles: seq<int>)
    requires NoDups(articles)
    ensures Dot(PresenceRow(df, u, articles), PresenceRow(df, t, articles))
         == |(set a | a in articles) * (ReadSet(df, u) * ReadSet(df, t))|
  {
    if articles != [] {
      NoDupsTail(articles);
      DotCountsShared(df, u, t, articles[1..]);
      DotStep(df, u, t, articles);
      SharedStep(articles, ReadSet(df, u) * ReadSet(df, t));
      PresenceIsRead(df, u, articles[0]);
      PresenceIsRead(df, t, articles[0]);
    }
  }

  /** The similarity score `get_top_similar_users` computes for u is the number
      of articles that u and the target t have both read. */
  lemma SimilarityIsCoRead(df: seq<Row>, t: int, u: int)
    ensures var articles := GetUserByItem(df).articles;
      Dot(PresenceRow(df, u, articles), PresenceRow(df, t, articles)) == CoRead(df, t, u)
  {
    var articles := GetUserByItem(df).articles;
    DotCountsShared(df, u, t, articles);
    var all := set a | a in articles;
    assert ReadSet(df, u) <= all;
    assert all * (ReadSet(df, u) * ReadSet(df, t)) == ReadSet(df, t) * ReadSet(df, u);
  }

  function IndexOf(s: seq<int>, x: int): (k: nat)
    requires x in s
    ensures k < |s| && s[k] == x
  {
    if s[0] == x then 0 else 1 + IndexOf(s[1..], x)
  }

  /** `drop(x)` on an index: the other entries, in order. */
  function Without(s: seq<int>, x: int): (r: seq<int>)
    ensures forall y :: y in r <==> y in s && y != x
    ensures NoDups(s) ==> NoDups(r)
  {
    if s == [] then []
    else
      var init, y := s[..|s| - 1], s[|s| - 1];
      var p := Without(init, x);
      assert s == init + [y];
      assert NoDups(s) ==> NoDups(init) && y !in init by {
        if NoDups(s) {
          forall k | 0 <= k < |init| ensures init[k] != y {
            assert init[k] == s[k];
          }
        }
      }
      if y == x then p else p + [y]
  }

  /** `user_item.loc[u]`: the matrix row of user u. */
  function MatrixRow(m: Matrix, u: int): (r: seq<int>)
    requires u in m.users && |m.cells| == |m.users|
  {
    m.cells[IndexOf(m.users, u)]
  }

  lemma MatrixRowIsPresence(df: seq<Row>, u: int)
    requires u in GetUserByItem(df).users
    ensures var m := GetUserByItem(df);
      MatrixRow(m, u) == PresenceRow(df, u, m.articles)
  {
  }

  /** The similarity of each given user with the target: the dot product of
      their two matrix rows, which is the number of articles both have read. */
  function SimilarityScores(df: seq<Row>, userId: int, others: seq<int>): (r: seq<(int, int)>)
    requires userId in GetUserByItem(df).users
    requires forall u :: u in others ==> u in GetUserByItem(df).users
    ensures Keys(r) == others
    ensures forall i :: 0 <= i < |r| ==> r[i].1 == CoRead(df, userId, r[i].0)
  {
    var m := GetUserByItem(df);
    var r := seq(|others|, i requires 0 <= i < |others| =>
      (others[i], Dot(MatrixRow(m, others[i]), MatrixRow(m, userId))));
    forall i | 0 <= i < |r| ensures r[i].1 == CoRead(df, userId, r[i].0) {
      MatrixRowIsPresence(df, others[i]);
      MatrixRowIsPresence(df, userId);
      SimilarityIsCoRead(df, userId, others[i]);
    }
    r
  }

  /** `get_top_similar_users`: all users but the target, most similar first,
      where similarity is the dot product of the two rows of the user-item
      matrix. None where `drop(user_id)` and `loc[user_id]` raise KeyError,
      that is, when the target has no row at all. */
  function GetTopSimilarUsers(df: seq<Row>, userId: int): (r: Option<seq<int>>)
    ensures r.Some? <==> exists x :: x in df && x.user == userId
    ensures r.Some? ==> NoDups(r.value)
    ensures r.Some? ==> forall u :: u in r.value <==> u != userId && exists x :: x in df && x.user == u
    ensures r.Some? ==> forall i, j :: 0 <= i < j < |r.value| ==>
      CoRead(df, userId, r.value[i]) >= CoRead(df, userId, r.value[j])
  {
    var m := GetUserByItem(df);
    if userId !in m.users then None
    else
      var others := Without(m.users, userId);
      var scores := SimilarityScores(df, userId, others);
      var ranked := SortDescending(scores);
      RankedBySimilarity(df, userId, scores, ranked);
      Some(Keys(ranked))
  }

  /** Sorting the scores keeps the users and puts the higher co-read counts
      first. */
  lemma RankedBySimilarity(df: seq<Row>, userId: int, scores: seq<(int, int)>, ranked: seq<(int, int)>)
    requires NoDups(Keys(scores))
    requires forall i :: 0 <= i < |scores| ==> scores[i].1 == CoRead(df, userId, scores[i].0)
    requires NonIncreasing(ranked)
    requires multiset(ranked) == multiset(scores)
    requires multiset(Keys(ranked)) == multiset(Keys(scores))
    ensures NoDups(Keys(ranked))
    ensures forall u :: u in Keys(ranked) <==> u in Keys(scores)
    ensures forall i, j :: 0 <= i < j < |ranked| ==>
      CoRead(df, userId, Keys(ranked)[i]) >= CoRead(df, userId, Keys(ranked)[j])
  {
    NoDupsPermutation(Keys(scores), Keys(ranked));
    forall u ensures u in Keys(ranked) <==> u in Keys(scores) {
      assert u in Keys(ranked) <==> u in multiset(Keys(ranked));
    }
    forall i | 0 <= i < |ranked| ensures ranked[i].1 == CoRead(df, userId, ranked[i].0) {
      assert ranked[i] in multiset(scores);
    }
  }

  /** `get_most_viewed_articles(u)`: each article of u once, the ones u has
      read most often first. */
  function GetMostViewedArticles(df: seq<Row>, u: int): (r: seq<int>)
    ensures NoDups(r)
    ensures forall a :: a in r <==> a in ReadSet(df, u)
    ensures forall i, j :: 0 <= i < j < |r| ==>
      multiset(ArticlesOf(df, u))[r[i]] >= multiset(ArticlesOf(df, u))[r[j]]
  {
    RankByCount(ArticlesOf(df, u))
  }

  /** The exclusion set the selection loop builds from the viewed list is
      the set of articles u has read. */
  lemma ViewedSet(df: seq<Row>, u: int)
    ensures (set a | a in GetMostViewedArticles(df, u)) == ReadSet(df, u)
  {
  }

  /** The candidate lists of `make_collaborative_recs`: the most viewed
      articles of each similar user, most similar user first. */
  function CollaborativeCandidates(df: seq<Row>, similar: seq<int>): (lists: seq<seq<int>>)
    ensures |lists| == |similar|
    ensures forall k :: 0 <= k < |lists| ==> NoDups(lists[k])
    ensures forall k, a :: 0 <= k < |lists| ==> (a in lists[k] <==> a in ReadSet(df, similar[k]))
  {
    seq(|similar|, i requires 0 <= i < |similar| => GetMostViewedArticles(df, similar[i]))
  }

  /** An article is a candidate exactly when one of the similar users read it. */
  lemma CandidatesAreRead(df: seq<Row>, similar: seq<int>, a: int)
    ensures a in Flatten(CollaborativeCandidates(df, similar))
       <==> exists k :: 0 <= k < |similar| && a in ReadSet(df, similar[k])
  {
    var lists := CollaborativeCandidates(df, similar);
    if a in Flatten(lists) {
      var k :| 0 <= k < |lists| && a in lists[k];
      assert a in ReadSet(df, similar[k]);
    }
    if k :| 0 <= k < |similar| && a in ReadSet(df, similar[k]) {
      assert a in lists[k];
    }
  }

  /** The article ids `make_collaborative_recs(nRec)` collects for the target
      (lines 40-52): the first nRec distinct articles, unread by the target,
      met while walking the similar users in rank order and each user's
      articles in view order. */
  ghost function CollaborativePicks(df: seq<Row>, userId: int, nRec: nat): seq<int>
    requires exists x :: x in df && x.user == userId
  {
    var similar := GetTopSimilarUsers(df, userId).value;
    Take(Novel(Flatten(CollaborativeCandidates(df, similar)), ReadSet(df, userId)), nRec)
  }

  /** At most nRec articles, none twice, none already read by the target, each
      one read by another user; fewer than nRec only when every article some
      other user read and the target did not is already among them. */
  lemma CollaborativePicksProperties(df: seq<Row>, userId: int, nRec: nat)
    requires exists x :: x in df && x.user == userId
    ensures var r := CollaborativePicks(df, userId, nRec);
      && |r| <= nRec
      && NoDups(r)
      && (forall a :: a in r ==> a !in ReadSet(df, userId))
      && (forall a :: a in r ==> exists u :: u != userId && a in ReadSet(df, u))
      && (|r| < nRec ==> forall u, a :: u != userId && a in ReadSet(df, u) && a !in ReadSet(df, userId) ==> a in r)
  {
    var similar := GetTopSimilarUsers(df, userId).value;
    var stream := Flatten(CollaborativeCandidates(df, similar));
    CollectedProperties(stream, ReadSet(df, userId), nRec);
    var r := CollaborativePicks(df, userId, nRec);
    forall a | a in r ensures exists u :: u != userId && a in ReadSet(df, u) {
      CandidatesAreRead(df, similar, a);
      var k :| 0 <= k < |similar| && a in ReadSet(df, similar[k]);
      assert similar[k] != userId;
    }
    if |r| < nRec {
      forall u, a | u != userId && a in ReadSet(df, u) && a !in ReadSet(df, userId) ensures a in r {
        var x :| x in df && x.user == u && x.article == a;
        assert u in similar;
        var k :| 0 <= k < |similar| && similar[k] == u;
        CandidatesAreRead(df, similar, a);
        assert a in stream;
      }
    }
  }

  /** The positions of the rows of the given articles, in ascending order. */
  ghost function ArticleRows(df: seq<Row>, ids: seq<int>): (r: seq<nat>)
    ensures forall p :: 0 <= p < |r| ==> r[p] < |df| && df[r[p]].article in ids
    ensures forall k :: 0 <= k < |df| && df[k].article in ids ==> k in r
    ensures forall p, q :: 0 <= p < q < |r| ==> r[p] < r[q]
  {
    if df == [] then []
    else
      var p := ArticleRows(df[..|df| - 1], ids);
      if df[|df| - 1].article in ids then p + [|df| - 1] else p
  }

  /** `df.doc_full_name[df.article_id.isin(ids)]`: the titles of the rows of
      the given articles, in row order. */
  function ArticleTitles(df: seq<Row>, ids: seq<int>): (r: seq<string>)
    ensures forall t :: t in r <==> exists x :: x in df && x.article in ids && x.title == t
  {
    if df == [] then []
    else
      var init, x := df[..|df| - 1], df[|df| - 1];
      var p := ArticleTitles(init, ids);
      var r := if x.article in ids then p + [x.title] else p;
      assert forall t :: t in r <==> exists y :: y in df && y.article in ids && y.title == t by {
        assert df == init + [x];
      }
      r
  }

  /** The looked-up titles are the titles of the matching rows, one per row,
      in row order. */
  lemma {:induction false} ArticleTitlesInRowOrder(df: seq<Row>, ids: seq<int>)
    ensures |ArticleTitles(df, ids)| == |ArticleRows(df, ids)|
    ensures forall p :: 0 <= p < |ArticleRows(df, ids)| ==> ArticleTitles(df, ids)[p] == df[ArticleRows(df, ids)[p]].title
  {
    if df != [] {
      var init, x := df[..|df| - 1], df[|df| - 1];
      ArticleTitlesInRowOrder(init, ids);
      var rows, r := ArticleRows(df, ids), ArticleTitles(df, ids);
      forall p | 0 <= p < |ArticleRows(init, ids)| ensures r[p] == df[rows[p]].title {
        assert init[ArticleRows(init, ids)[p]] == df[ArticleRows(init, ids)[p]];
      }
    }
  }

  /** Every title the lookup by article id yields is the title of a row. */
  lemma ArticleTitlesInTable(df: seq<Row>, ids: seq<int>)
    ensures forall t :: t in ArticleTitles(df, ids) ==> t in Titles(Project(df))
  {
    forall t | t in ArticleTitles(df, ids) ensures t in Titles(Project(df)) {
      var x :| x in df && x.article in ids && x.title == t;
      var k :| 0 <= k < |df| && df[k] == x;
      assert Titles(Project(df))[k] == t;
    }
  }

  /** Entries taken from the projection of complete rows have a description
      and a link. */
  lemma CompleteEntries(df: seq<Row>, entries: seq<Rec>)
    requires forall i :: 0 <= i < |df| ==> Complete(df[i])
    requires forall e :: e in entries ==> e in Project(df)
    ensures forall i :: 0 <= i < |entries| ==> entries[i].description.Some? && entries[i].link.Some?
  {
    forall i | 0 <= i < |entries| ensures entries[i].description.Some? && entries[i].link.Some? {
      assert entries[i] in entries;
      var k :| 0 <= k < |Project(df)| && Project(df)[k] == entries[i];
      assert Complete(df[k]);
    }
  }

  /** Lines 53-63 of `make_collaborative_recs`: the distinct titles of the
      rows of the collected articles, in row order, each with the description
      and link of the first row carrying that title. */
  method DescribeArticles(df: seq<Row>, ids: seq<int>) returns (recs: seq<Rec>)
    requires forall i :: 0 <= i < |df| ==> Complete(df[i])
    ensures Titles(recs) == Distinct(ArticleTitles(df, ids))
    ensures FirstEntries(Project(df), recs)
    ensures forall i :: 0 <= i < |recs| ==> recs[i].description.Some? && recs[i].link.Some?
  {
    var articleTitles := Distinct(ArticleTitles(df, ids));
    ArticleTitlesInTable(df, ids);
    recs := Describe(Project(df), articleTitles);
    CompleteEntries(df, recs);
  }

  /** `Collaborative(df, user_id).make_collaborative_recs(nRec)`. The rows with
      a missing field are dropped first; None stands for the KeyError raised
      when none of the target's rows is left. The recommendations are the
      distinct titles of the collected articles, in the order they first occur
      in the table (not in rank order), each with the description and link of
      the first row carrying that title. */
  method MakeCollaborativeRecs(data: seq<Row>, userId: int, nRec: nat) returns (recs: Option<seq<Rec>>)
    ensures recs.Some? <==> exists x :: x in DropNa(data) && x.user == userId
    ensures recs.Some? ==>
      Titles(recs.value) == Distinct(ArticleTitles(DropNa(data), CollaborativePicks(DropNa(data), userId, nRec)))
    ensures recs.Some? ==> FirstEntries(Project(DropNa(data)), recs.value)
    ensures recs.Some? ==> forall i :: 0 <= i < |recs.value| ==>
      recs.value[i].description.Some? && recs.value[i].link.Some?
  {
    var df := DropNa(data);
    var picked := CollaborativeArticles(df, userId, nRec);
    if picked.None? {
      return None;
    }
    var described := DescribeArticles(df, picked.value);
    recs := Some(described);
  }

  /** Lines 40-52 of `make_collaborative_recs` on the cleaned table: the
      ranking of the other users, the target's read articles and the
      selection loop. None where the ranking raises KeyError. */
  method CollaborativeArticles(df: seq<Row>, userId: int, nRec: nat) returns (picked: Option<seq<int>>)
    ensures picked.Some? <==> exists x :: x in df && x.user == userId
    ensures picked.Some? ==> picked.value == CollaborativePicks(df, userId, nRec)
  {
    var similarUsers := GetTopSimilarUsers(df, userId);
    if similarUsers.None? {
      return None;
    }
    var similar := similarUsers.value;
    var articlesRead := GetMostViewedArticles(df, userId);
    ViewedSet(df, userId);
    var recommendations := Collect(CollaborativeCandidates(df, similar), articlesRead, nRec);
    picked := Some(recommendations);
  }

  // ------------------------------------------------------------------------
  // Content-based recommendation, selection step (class Content)
  // ------------------------------------------------------------------------

  /** `Content.__init__`, `user_articles`: the distinct titles the user has
      read, in row order. */
  function UserArticles(df: seq<Row>, userId: int): (r: seq<string>)
    ensures NoDups(r)
    ensures forall t :: t in r <==> exists x :: x in df && x.user == userId && x.title == t
  {
    Distinct(TitlesOf(df, userId))
  }

  /** `Content.__init__`, `self.df`: the (title, description, link) table with
      repeated triples dropped, the first kept; positions are the row numbers
      `reset_index` gives. */
  function ContentTable(df: seq<Row>): (r: seq<Rec>)
    ensures NoDups(r)
    ensures forall e :: e in r <==> e in Project(df)
  {
    Distinct(Project(df))
  }

  /** The candidate rows of each content-table row: for row k, the rows (in
      ascending order) whose similarity with row k reaches the 99th percentile
      of row k. They come from the TF-IDF similarity matrix, which is not part
      of this model; all that is assumed is that they are rows of the table. */
  predicate ValidCandidates(similar: seq<seq<nat>>, size: nat) {
    |similar| == size && forall k, p :: 0 <= k < size && 0 <= p < |similar[k]| ==> similar[k][p] < size
  }

  /** Rows 0..n-1 of the table whose title the user has read, ascending. */
  function SeedRowsUpTo(table: seq<Rec>, titles: seq<string>, n: nat): (r: seq<nat>)
    requires n <= |table|
    ensures forall p :: 0 <= p < |r| ==> r[p] < n && table[r[p]].title in titles
    ensures forall k :: 0 <= k < n && table[k].title in titles ==> k in r
    ensures forall p, q :: 0 <= p < q < |r| ==> r[p] < r[q]
    ensures titles == [] ==> r == []
  {
    if n == 0 then []
    else
      var p := SeedRowsUpTo(table, titles, n - 1);
      if table[n - 1].title in titles then p + [n - 1] else p
  }

  /** `self.df[self.df.doc_full_name.isin(self.user_articles)].index`: the
      seed rows, in table order. */
  function SeedRows(table: seq<Rec>, titles: seq<string>): (r: seq<nat>)
    ensures forall p :: 0 <= p < |r| ==> r[p] < |table| && table[r[p]].title in titles
    ensures forall k :: 0 <= k < |table| && table[k].title in titles ==> k in r
    ensures forall p, q :: 0 <= p < q < |r| ==> r[p] < r[q]
    ensures titles == [] ==> r == []
  {
    SeedRowsUpTo(table, titles, |table|)
  }

  /** `self.df.iloc[rows].doc_full_name`. */
  function RowTitles(table: seq<Rec>, rows: seq<nat>): (r: seq<string>)
    requires forall p :: 0 <= p < |rows| ==> rows[p] < |table|
    ensures |r| == |rows|
    ensures forall p :: 0 <= p < |rows| ==> r[p] == table[rows[p]].title
    ensures forall t :: t in r ==> t in Titles(table)
  {
    var r := seq(|rows|, p requires 0 <= p < |rows| => table[rows[p]].title);
    forall t | t in r ensures t in Titles(table) {
      var p :| 0 <= p < |r| && r[p] == t;
      assert Titles(table)[rows[p]] == t;
    }
    r
  }

  /** The candidate lists of `make_content_recs`: for each seed row in table
      order, the titles of its candidate rows. */
  function ContentCandidates(df: seq<Row>, userId: int, similar: seq<seq<nat>>): (lists: seq<seq<string>>)
    requires ValidCandidates(similar, |ContentTable(df)|)
  {
    var table := ContentTable(df);
    var seeds := SeedRows(table, UserArticles(df, userId));
    seq(|seeds|, p requires 0 <= p < |seeds| => RowTitles(table, similar[seeds[p]]))
  }

  /** Every candidate is the title of a row of the content table. */
  lemma CandidatesAreTableTitles(df: seq<Row>, userId: int, similar: seq<seq<nat>>)
    requires ValidCandidates(similar, |ContentTable(df)|)
    ensures forall t :: t in Flatten(ContentCandidates(df, userId, similar)) ==> t in Titles(ContentTable(df))
  {
    var table := ContentTable(df);
    var seeds := SeedRows(table, UserArticles(df, userId));
    var lists := ContentCandidates(df, userId, similar);
    forall t | t in Flatten(lists) ensures t in Titles(table) {
      var k :| 0 <= k < |lists| && t in lists[k];
      assert lists[k] == RowTitles(table, similar[seeds[k]]);
    }
  }

  /** The titles `make_content_recs(m)` collects (lines 122-135). */
  ghost function ContentPicks(df: seq<Row>, userId: int, similar: seq<seq<nat>>, m: nat): seq<string>
    requires ValidCandidates(similar, |ContentTable(df)|)
  {
    var read := UserArticles(df, userId);
    Take(Novel(Flatten(ContentCandidates(df, userId, similar)), set t | t in read), m)
  }

  /** At most m titles, none twice, none the user has read (so never a seed
      article itself), each a candidate of some seed row; fewer than m only
      when every unread candidate is among them. A user with no rows has no
      seed rows and gets nothing. */
  lemma ContentPicksProperties(df: seq<Row>, userId: int, similar: seq<seq<nat>>, m: nat)
    requires ValidCandidates(similar, |ContentTable(df)|)
    ensures var r := ContentPicks(df, userId, similar, m);
      && |r| <= m
      && NoDups(r)
      && (forall t :: t in r ==> t !in UserArticles(df, userId))
      && (forall t :: t in r ==> t in Flatten(ContentCandidates(df, userId, similar)))
      && (|r| < m ==> forall t :: (t in Flatten(ContentCandidates(df, userId, similar)) &&
                                    t !in UserArticles(df, userId)) ==> t in r)
      && ((forall x :: x in df ==> x.user != userId) ==> r == [])
  {
    var read := UserArticles(df, userId);
    var lists := ContentCandidates(df, userId, similar);
    CollectedProperties(Flatten(lists), (set t | t in read), m);
    if forall x :: x in df ==> x.user != userId {
      assert read == [];
      var seeds := SeedRows(ContentTable(df), read);
      assert lists == [];
    }
  }

  /** `Content(df, user_id, articles).make_content_recs(m)`, from the seed rows
      on; `similar` holds, per table row, the rows the percentile threshold
      selects. Each collected title gets the description and link of the first
      table row that carries it. */
  method MakeContentRecs(df: seq<Row>, userId: int, similar: seq<seq<nat>>, m: nat) returns (recs: seq<Rec>)
    requires ValidCandidates(similar, |ContentTable(df)|)
    ensures Titles(recs) == ContentPicks(df, userId, similar, m)
    ensures FirstEntries(ContentTable(df), recs)
  {
    var userArticles := UserArticles(df, userId);
    var table := ContentTable(df);
    var titles := Collect(ContentCandidates(df, userId, similar), userArticles, m);
    CandidatesAreTableTitles(df, userId, similar);
    recs := Describe(table, titles);
  }

  // ------------------------------------------------------------------------
  // Popularity ranking (get_top_ranked_articles)
  // ------------------------------------------------------------------------

  /** The number of rows (reads) carrying title t. */
  function ReadCount(df: seq<Row>, t: string): nat {
    multiset(Titles(Project(df)))[t]
  }

  /** `df.doc_full_name.value_counts().sort_values(ascending=False).index.tolist()[:n]`. */
  function TopTitles(df: seq<Row>, n: nat): seq<string> {
    Take(RankByCount(Titles(Project(df))), n)
  }

  /** The first n titles of the ranking are the n most read: no title twice,
      read counts never increase along the list, every title left out is read
      no more often than any title kept, and fewer than n titles means every
      title is there. */
  lemma TopTitlesAreMostRead(df: seq<Row>, n: nat)
    ensures var top := TopTitles(df, n);
      && |top| <= n
      && NoDups(top)
      && (forall i, j :: 0 <= i < j < |top| ==> ReadCount(df, top[i]) >= ReadCount(df, top[j]))
      && (forall t, i :: t in Titles(Project(df)) && t !in top && 0 <= i < |top| ==>
            ReadCount(df, top[i]) >= ReadCount(df, t))
      && (|top| < n ==> forall t :: t in Titles(Project(df)) ==> t in top)
  {
    var all := Titles(Project(df));
    var ranked := RankByCount(all);
    var top := TopTitles(df, n);
    assert top == ranked[..|top|];
    forall i, j | 0 <= i < j < |top| ensures top[i] != top[j] {
      assert top[i] == ranked[i] && top[j] == ranked[j];
    }
    forall t, i | t in all && t !in top && 0 <= i < |top|
      ensures ReadCount(df, top[i]) >= ReadCount(df, t)
    {
      TopCountsFirst(all, n, t, i);
    }
  }

  /** The link shown for a popular article: an empty link becomes '#'. */
  function ShownLink(link: Option<string>): (r: Option<string>)
    ensures link == Some("") ==> r == Some("#")
    ensures link != Some("") ==> r == link
  {
    if link == Some("") then Some("#") else link
  }

  /** `get_top_ranked_articles(df, n)`: the n most read titles, each with the
      description and link of its first row, an empty link replaced by '#'. */
  method GetTopRankedArticles(df: seq<Row>, n: nat) returns (recs: seq<Rec>)
    ensures |recs| == |TopTitles(df, n)|
    ensures forall i :: 0 <= i < |recs| ==>
      var first := FirstWithTitle(Project(df), recs[i].title);
      && recs[i].title == TopTitles(df, n)[i]
      && first.Some?
      && recs[i].description == Project(df)[first.value].description
      && recs[i].link == ShownLink(Project(df)[first.value].link)
  {
    var topArticles := TopTitles(df, n);
    var table := Project(df);
    recs := [];
    for i := 0 to |topArticles|
      invariant |recs| == i
      invariant forall k :: 0 <= k < i ==>
        var first := FirstWithTitle(table, recs[k].title);
        && recs[k].title == topArticles[k]
        && first.Some?
        && recs[k].description == table[first.value].description
        && recs[k].link == ShownLink(table[first.value].link)
    {
      var title := topArticles[i];
      assert title in Titles(table) by {
        assert title in RankByCount(Titles(table));
      }
      var k := FirstWithTitle(table, title).value;
      var link := table[k].link;
      if link == Some("") {
        link := Some("#");
      }
      recs := recs + [Rec(title, table[k].description, link)];
    }
  }
}
