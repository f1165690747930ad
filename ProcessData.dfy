/** data/process_data.py: the one-time load of the two CSV files into the
    database. The article table loses its repeated rows and then every row
    whose `article_id` was seen before; each e-mail address gets a user id in
    order of first appearance; the interactions, stripped of title and e-mail,
    are joined with the article names and descriptions on `article_id`. */
module ProcessData {
  import opened SeqOps
  import opened Wrappers

  /** A row of user-item-interactions.csv. */
  datatype Interaction = Interaction(article: int, title: string, email: string)

  /** A row of articles.csv. */
  datatype Article = Article(body: Option<string>, description: Option<string>,
                             name: string, status: string, article: int)

  /** An interaction row once the e-mail is replaced by the user id. */
  datatype Event = Event(article: int, title: string, user: nat)

  /** A row of the joined table: `article_id`, `user_id`, `doc_full_name`,
      `doc_description`. */
  datatype Merged = Merged(article: int, user: nat, name: string, description: Option<string>)

  /** The `article_id` column of the article table. */
  function Ids(content: seq<Article>): (r: seq<int>)
    ensures |r| == |content|
    ensures forall i :: 0 <= i < |content| ==> r[i] == content[i].article
  {
    seq(|content|, i requires 0 <= i < |content| => content[i].article)
  }

  /** The `email` column of the interaction table. */
  function Emails(df: seq<Interaction>): (r: seq<string>)
    ensures |r| == |df|
    ensures forall i :: 0 <= i < |df| ==> r[i] == df[i].email
  {
    seq(|df|, i requires 0 <= i < |df| => df[i].email)
  }

  lemma IdsSnoc(s: seq<Article>, x: Article)
    ensures Ids(s + [x]) == Ids(s) + [x.article]
  {
  }

  /** The position of the first row with the given `article_id`. */
  function FirstById(content: seq<Article>, id: int): (k: Option<nat>)
    ensures k.None? <==> id !in Ids(content)
    ensures k.Some? ==> k.value < |content| && content[k.value].article == id
    ensures k.Some? ==> forall i :: 0 <= i < k.value ==> content[i].article != id
  {
    if content == [] then None
    else
      var init := content[..|content| - 1];
      assert Ids(content) == Ids(init) + [content[|content| - 1].article];
      match FirstById(init, id)
      case Some(k) => Some(k)
      case None => if content[|content| - 1].article == id then Some(|content| - 1) else None
  }

  /** The last row: the first row of an id seen before stays where it was,
      and a new id is first found at the last row. */
  lemma FirstByIdLast(content: seq<Article>, id: int)
    requires content != []
    ensures var init := content[..|content| - 1];
      FirstById(content, id)
        == if id in Ids(init) then FirstById(init, id)
           else if content[|content| - 1].article == id then Some(|init|) else None
  {
  }

  /** Each row of `kept` is the first row of `content` with its id. */
  ghost predicate FirstRows(content: seq<Article>, kept: seq<Article>) {
    forall i :: 0 <= i < |kept| ==>
      FirstById(content, kept[i].article).Some? && kept[i] == content[FirstById(content, kept[i].article).value]
  }

  /** `drop_duplicates(subset='article_id', keep='first')`: every row whose
      `article_id` occurred before is dropped. The ids left are the distinct
      ids in order of first appearance, and the row kept for an id is the
      first row carrying it. */
  function KeepFirstById(content: seq<Article>): (r: seq<Article>)
    ensures Ids(r) == Distinct(Ids(content))
  {
    if content == [] then []
    else
      var init, x := content[..|content| - 1], content[|content| - 1];
      var p := KeepFirstById(init);
      assert Distinct(Ids(content)) == if x.article in Ids(p) then Ids(p) else Ids(p) + [x.article] by {
        IdsSnoc(init, x);
        assert content == init + [x];
        NovelSnoc(Ids(init), x.article, {});
      }
      if x.article in Ids(p) then p
      else
        IdsSnoc(p, x);
        p + [x]
  }

  /** `KeepFirstById` on one more row. */
  lemma KeepFirstSnoc(init: seq<Article>, x: Article)
    ensures KeepFirstById(init + [x])
         == if x.article in Ids(KeepFirstById(init)) then KeepFirstById(init)
            else KeepFirstById(init) + [x]
  {
    assert (init + [x])[..|init + [x]| - 1] == init;
  }

  /** The row kept for an id is the first row carrying it. */
  lemma {:induction false} KeptRowsAreFirst(content: seq<Article>)
    ensures FirstRows(content, KeepFirstById(content))
  {
    if content != [] {
      KeptRowsAreFirst(content[..|content| - 1]);
      KeptRowsStep(content);
    }
  }

  /** The inductive step of `KeptRowsAreFirst`: a row kept before the last
      one is still the first of its id, and the last row, when kept, is the
      first of its id. */
  lemma KeptRowsStep(content: seq<Article>)
    requires content != []
    requires FirstRows(content[..|content| - 1], KeepFirstById(content[..|content| - 1]))
    ensures FirstRows(content, KeepFirstById(content))
  {
    var init, x := content[..|content| - 1], content[|content| - 1];
    var p := KeepFirstById(init);
    KeptRowsStay(content, p);
    if x.article !in Ids(p) {
      assert x.article !in Ids(init);
      FirstByIdLast(content, x.article);
      FirstRowsSnoc(content, p, x);
    }
  }

  /** Rows that were first of their id in a prefix stay first in all of content. */
  lemma KeptRowsStay(content: seq<Article>, p: seq<Article>)
    requires content != []
    requires FirstRows(content[..|content| - 1], p)
    ensures FirstRows(content, p)
  {
    var init := content[..|content| - 1];
    forall i | 0 <= i < |p|
      ensures FirstById(content, p[i].article).Some?
      ensures p[i] == content[FirstById(content, p[i].article).value]
    {
      var k := FirstById(init, p[i].article).value;
      FirstByIdLast(content, p[i].article);
      assert content[k] == init[k];
    }
  }

  /** Appending a row that is the first of its id keeps `FirstRows`. */
  lemma FirstRowsSnoc(content: seq<Article>, p: seq<Article>, x: Article)
    requires FirstRows(content, p)
    requires FirstById(content, x.article).Some? && x == content[FirstById(content, x.article).value]
    ensures FirstRows(content, p + [x])
  {
    var r := p + [x];
    forall i | 0 <= i < |r|
      ensures FirstById(content, r[i].article).Some?
      ensures r[i] == content[FirstById(content, r[i].article).value]
    {
      if i < |p| {
        assert r[i] == p[i];
      }
    }
  }

  /** After the id de-duplication no `article_id` occurs twice. */
  lemma IdsUnique(content: seq<Article>)
    ensures NoDups(Ids(KeepFirstById(content)))
    ensures forall a :: a in KeepFirstById(content) ==> a in content
    ensures forall id :: id in Ids(KeepFirstById(content)) <==> id in Ids(content)
  {
    var r := KeepFirstById(content);
    forall a | a in r ensures a in content {
      var i :| 0 <= i < |r| && r[i] == a;
    }
  }

  /** Removing repeated rows first (line 13) changes nothing that the id
      de-duplication (line 14) would keep: repeated rows share their id. */
  lemma {:induction false} KeepFirstByIdAfterDistinct(content: seq<Article>)
    ensures KeepFirstById(Distinct(content)) == KeepFirstById(content)
  {
    if content != [] {
      var init, x := content[..|content| - 1], content[|content| - 1];
      var d, p := Distinct(init), KeepFirstById(init);
      KeepFirstByIdAfterDistinct(init);
      assert Distinct(content) == if x in d then d else d + [x];
      if x in d {
        assert x.article in Ids(p) by {
          var k :| 0 <= k < |init| && init[k] == x;
          assert Ids(init)[k] == x.article;
        }
      } else {
        KeepFirstSnoc(d, x);
      }
    }
  }

  /** What the e-mail loop leaves behind: exactly the e-mails seen have an
      id, the ids are 0 .. count-1, and the id of an e-mail is its position
      among the distinct e-mails in order of first appearance. */
  ghost predicate UserIdsFor(emails: seq<string>, ids: map<string, nat>, count: nat) {
    && (forall e :: e in ids <==> e in emails)
    && count == |Distinct(emails)|
    && (forall e :: e in ids ==> ids[e] < count && Distinct(emails)[ids[e]] == e)
  }

  /** Lines 21-26: the loop filling `user_id_dict`; `count` is the counter `i`. */
  method AssignUserIds(emails: seq<string>) returns (ids: map<string, nat>, count: nat)
    ensures UserIdsFor(emails, ids, count)
  {
    ids, count := map[], 0;
    for j := 0 to |emails|
      invariant UserIdsFor(emails[..j], ids, count)
    {
      var email := emails[j];
      assert Distinct(emails[..j + 1])
          == if email in Distinct(emails[..j]) then Distinct(emails[..j]) else Distinct(emails[..j]) + [email] by {
        DistinctStep(emails, j);
      }
      if email !in ids {
        ids := ids[email := count];
        count := count + 1;
      }
    }
    assert emails[..|emails|] == emails;
  }

  /** Different e-mails never share an id, and every id below the count
      belongs to the e-mail at that position of the first-appearance order. */
  lemma UserIdsAreDense(emails: seq<string>, ids: map<string, nat>, count: nat)
    requires UserIdsFor(emails, ids, count)
    ensures forall e, f :: e in ids && f in ids && ids[e] == ids[f] ==> e == f
    ensures forall k :: 0 <= k < count ==> Distinct(emails)[k] in ids && ids[Distinct(emails)[k]] == k
  {
    var d := Distinct(emails);
    forall k | 0 <= k < count ensures d[k] in ids && ids[d[k]] == k {
      assert d[k] in emails;
      assert d[ids[d[k]]] == d[k];
    }
  }

  /** Lines 27-28: each row gets the id of its own e-mail, and the e-mail
      column is dropped; line 32 drops the title. */
  function WithUserIds(df: seq<Interaction>, ids: map<string, nat>): (r: seq<Event>)
    requires forall x :: x in df ==> x.email in ids
    ensures |r| == |df|
    ensures forall i :: 0 <= i < |df| ==>
      r[i].article == df[i].article && r[i].title == df[i].title && r[i].user == ids[df[i].email]
  {
    seq(|df|, i requires 0 <= i < |df| => Event(df[i].article, df[i].title, ids[df[i].email]))
  }

  /** Two rows get the same user id exactly when they have the same e-mail. */
  lemma SameUserIffSameEmail(df: seq<Interaction>, ids: map<string, nat>, count: nat)
    requires UserIdsFor(Emails(df), ids, count)
    ensures forall x :: x in df ==> x.email in ids
    ensures forall x :: x in df ==> x.email in ids && ids[x.email] < count
    ensures forall i, j :: 0 <= i < |df| && 0 <= j < |df| ==>
      (WithUserIds(df, ids)[i].user == WithUserIds(df, ids)[j].user <==> df[i].email == df[j].email)
  {
    forall x | x in df ensures x.email in ids {
      var i :| 0 <= i < |df| && df[i] == x;
      assert Emails(df)[i] == x.email;
    }
    UserIdsAreDense(Emails(df), ids, count);
  }

  /** One joined row: the interaction's id and user with the article's name
      and description. */
  function Joined(e: Event, a: Article): Merged {
    Merged(e.article, e.user, a.name, a.description)
  }

  /** The joined rows of one interaction: one per article row with its id. */
  function Matches(e: Event, content: seq<Article>): (r: seq<Merged>)
    ensures forall m :: m in r <==> exists a :: a in content && a.article == e.article && m == Joined(e, a)
  {
    if content == [] then []
    else
      var init, a := content[..|content| - 1], content[|content| - 1];
      assert content == init + [a];
      Matches(e, init) + (if a.article == e.article then [Joined(e, a)] else [])
  }

  /** With unique article ids an interaction joins with at most one row, and
      with one exactly when its id is in the table. */
  lemma {:induction false} MatchesAtMostOne(e: Event, content: seq<Article>)
    requires NoDups(Ids(content))
    ensures |Matches(e, content)| == if e.article in Ids(content) then 1 else 0
  {
    if content != [] {
      var init, a := content[..|content| - 1], content[|content| - 1];
      assert Ids(content) == Ids(init) + [a.article];
      assert NoDups(Ids(init)) by {
        forall i, j | 0 <= i < j < |init| ensures Ids(init)[i] != Ids(init)[j] {
          assert Ids(content)[i] != Ids(content)[j];
        }
      }
      assert a.article !in Ids(init) by {
        forall i | 0 <= i < |init| ensures Ids(init)[i] != a.article {
          assert Ids(content)[i] != Ids(content)[|init|];
        }
      }
      MatchesAtMostOne(e, init);
    }
  }

  /** Line 32: the inner join on `article_id`, interaction by interaction.
      A joined row exists exactly for each pair of an interaction and an
      article row with the same id. */
  function Merge(events: seq<Event>, content: seq<Article>): (r: seq<Merged>)
    ensures forall m :: m in r <==>
      exists e, a :: e in events && a in content && e.article == a.article && m == Joined(e, a)
  {
    if events == [] then []
    else
      var init, e := events[..|events| - 1], events[|events| - 1];
      assert events == init + [e];
      Merge(init, content) + Matches(e, content)
  }

  /** The interactions whose article is in the article table. */
  function Known(events: seq<Event>, content: seq<Article>): (r: seq<Event>)
    ensures forall e :: e in r <==> e in events && e.article in Ids(content)
    ensures forall y :: multiset(r)[y] == if y.article in Ids(content) then multiset(events)[y] else 0
    ensures |r| <= |events|
  {
    if events == [] then []
    else
      var init, e := events[..|events| - 1], events[|events| - 1];
      assert events == init + [e];
      assert multiset(events) == multiset(init) + multiset{e};
      Known(init, content) + (if e.article in Ids(content) then [e] else [])
  }

  /** With unique article ids the join has one row per interaction whose
      article is known, so it is never longer than the interaction table. */
  lemma {:induction false} MergeSize(events: seq<Event>, content: seq<Article>)
    requires NoDups(Ids(content))
    ensures |Merge(events, content)| == |Known(events, content)| <= |events|
  {
    if events != [] {
      var init, e := events[..|events| - 1], events[|events| - 1];
      MergeSize(init, content);
      MatchesAtMostOne(e, content);
    }
  }

  /** Every joined row comes from an interaction, with the user id of its
      e-mail, and from an article row with the same id, whose name and
      description it carries. */
  lemma MergedRowsFromInputs(df: seq<Interaction>, ids: map<string, nat>, content: seq<Article>)
    requires forall x :: x in df ==> x.email in ids
    ensures forall m :: m in Merge(WithUserIds(df, ids), KeepFirstById(content)) ==>
      && (exists x :: x in df && x.article == m.article && ids[x.email] == m.user)
      && (exists a :: a in content && a.article == m.article && a.name == m.name && a.description == m.description)
  {
    var events, articles := WithUserIds(df, ids), KeepFirstById(content);
    IdsUnique(content);
    forall m | m in Merge(events, articles)
      ensures exists x :: x in df && x.article == m.article && ids[x.email] == m.user
      ensures exists a :: a in content && a.article == m.article && a.name == m.name && a.description == m.description
    {
      var e, a :| e in events && a in articles && e.article == a.article && m == Joined(e, a);
      var i :| 0 <= i < |events| && events[i] == e;
      assert df[i] in df;
    }
  }

  /** The whole script between reading and writing: both de-duplications of
      the article table, the user ids, and the join. */
  method Load(df: seq<Interaction>, content: seq<Article>)
    returns (merged: seq<Merged>, ids: map<string, nat>, count: nat)
    ensures UserIdsFor(Emails(df), ids, count)
    ensures forall x :: x in df ==> x.email in ids
    ensures merged == Merge(WithUserIds(df, ids), KeepFirstById(content))
    ensures |merged| <= |df|
    ensures forall m :: m in merged ==>
      && (exists x :: x in df && x.article == m.article && ids[x.email] == m.user)
      && (exists a :: a in content && a.article == m.article && a.name == m.name && a.description == m.description)
  {
    var articles := Distinct(content);
    articles := KeepFirstById(articles);
    assert articles == KeepFirstById(content) by {
      KeepFirstByIdAfterDistinct(content);
    }
    ids, count := AssignUserIds(Emails(df));
    assert forall x :: x in df ==> x.email in ids by {
      SameUserIffSameEmail(df, ids, count);
    }
    var events := WithUserIds(df, ids);
    merged := Merge(events, articles);
    assert |merged| <= |df| by {
      IdsUnique(content);
      MergeSize(events, articles);
    }
    MergedRowsFromInputs(df, ids, content);
  }
}
