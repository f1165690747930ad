/** app.py: the web front end's decisions. `temp` sends a user to the
    returning-user or the new-user page, `welcomeuser` picks the strategy and
    lists the recently read articles, `newuser` shows the most popular
    articles, and `updatedatabase` records that the current user opened an
    article. The module-level globals `df` and `currentuser` are the fields of
    one `App` object. */
module App {
  import opened Wrappers
  import opened SeqOps
  import opened Frame
  import opened Recommender
  import opened Text

  /** The page `temp` redirects to. */
  datatype Page = ReturningUser(user: int) | NewUser(user: int)

  /** A row of the users database as `welcomeuser` reads it, newest first. */
  datatype Visit = Visit(article: string, time: int)

  /** One entry of the "recently read" list: title, time and link. */
  datatype Recent = Recent(title: string, time: int, link: Option<string>)

  /** What `updatedatabase` did to the interaction table. */
  datatype Outcome = AlreadyRead | Recorded | UnknownArticle

  /** `(df.user_id == u).sum()`: the number of interaction rows of u. */
  function RowCount(df: seq<Row>, u: int): (r: nat)
    ensures r == multiset(UserColumn(df))[u]
    ensures r == 0 <==> forall x :: x in df ==> x.user != u
  {
    if df == [] then 0
    else
      var init := df[..|df| - 1];
      assert df == init + [df[|df| - 1]];
      RowCount(init, u) + (if df[|df| - 1].user == u then 1 else 0)
  }

  function Min(a: int, b: int): int {
    if a < b then a else b
  }

  /** `df.link[df.doc_full_name == art].tolist()[0]`: the link of the first
      row with the title, or None where the empty list raises IndexError. */
  function FirstLink(table: seq<Rec>, art: string): (r: Option<Option<string>>)
    ensures r.None? <==> art !in Titles(table)
    ensures r.Some? ==> art in Titles(table) && r.value == FirstEntry(table, art).link
  {
    FirstWithTitleFound(table, art);
    match FirstWithTitle(table, art)
    case None => None
    case Some(k) => Some(table[k].link)
  }

  /** Lines 88-91 of `welcomeuser`: the `rec_link` dictionary, filled title by
      title with the link of the first interaction row carrying the title, and
      its values in key order. A title no row carries raises IndexError (None). */
  method CollectLinks(table: seq<Rec>, titles: seq<string>) returns (values: Option<seq<Option<string>>>)
    ensures values.None? <==> exists t :: t in titles && t !in Titles(table)
    ensures values.Some? ==>
      && |values.value| == |Distinct(titles)|
      && forall k :: 0 <= k < |values.value| ==>
           Distinct(titles)[k] in Titles(table) &&
           values.value[k] == FirstEntry(table, Distinct(titles)[k]).link
  {
    var keys: seq<string> := [];
    var links: map<string, Option<string>> := map[];
    for i := 0 to |titles|
      invariant keys == Distinct(titles[..i])
      invariant LinksOf(table, keys, links)
    {
      var art := titles[i];
      var link := FirstLink(table, art);
      if link.None? {
        assert art in titles;
        return None;
      }
      DistinctStep(titles, i);
      keys, links := AddLink(table, keys, links, art, link.value);
    }
    assert titles[..|titles|] == titles;
    values := Some(Values(table, titles, keys, links));
  }

  /** `rec_link.values()` once every title is seen: the links of the
      distinct titles in order of first appearance, every title having a row. */
  function Values(table: seq<Rec>, titles: seq<string>, keys: seq<string>, links: map<string, Option<string>>)
    : (v: seq<Option<string>>)
    requires keys == Distinct(titles) && LinksOf(table, keys, links)
    ensures forall t :: t in titles ==> t in Titles(table)
    ensures |v| == |Distinct(titles)|
    ensures forall k :: 0 <= k < |v| ==>
      Distinct(titles)[k] in Titles(table) && v[k] == FirstEntry(table, Distinct(titles)[k]).link
  {
    assert forall t :: t in titles ==> t in keys;
    seq(|keys|, k requires 0 <= k < |keys| => links[keys[k]])
  }

  /** The dictionary holds exactly the keys seen, each with its title's link. */
  ghost predicate LinksOf(table: seq<Rec>, keys: seq<string>, links: map<string, Option<string>>) {
    && (forall t :: t in links <==> t in keys)
    && (forall t :: t in keys ==> t in Titles(table) && links[t] == FirstEntry(table, t).link)
  }

  /** `rec_link[title] = link`: a new key goes to the end of the key order. */
  method AddLink(table: seq<Rec>, keys: seq<string>, links: map<string, Option<string>>, art: string, link: Option<string>)
    returns (keys': seq<string>, links': map<string, Option<string>>)
    requires LinksOf(table, keys, links)
    requires art in Titles(table) && FirstEntry(table, art).link == link
    ensures LinksOf(table, keys', links')
    ensures keys' == if art in keys then keys else keys + [art]
  {
    keys' := if art in links then keys else keys + [art];
    links' := links[art := link];
  }

  /** The "recently read" part of `welcomeuser` (lines 85-95). The visits
      come from the users database, newest first. The zip of titles, times and
      dictionary values stops at the shortest of the three, and only the first
      five entries are kept. When a title was visited twice the dictionary has
      fewer values than there are titles, and the links pair with the distinct
      titles rather than with the visits at the same position; the users
      database holds each title of a user once, since `updatedatabase` only
      refreshes the time of a title already there. */
  method RecentlyRead(df: seq<Row>, visits: seq<Visit>) returns (result: Option<seq<Recent>>)
    ensures var titles := seq(|visits|, i requires 0 <= i < |visits| => visits[i].article);
      result.None? <==> exists t :: t in titles && t !in Titles(Project(df))
    ensures var titles := seq(|visits|, i requires 0 <= i < |visits| => visits[i].article);
      result.Some? ==>
        && |result.value| == Min(5, |Distinct(titles)|)
        && forall i :: 0 <= i < |result.value| ==>
             && result.value[i].title == visits[i].article
             && result.value[i].time == visits[i].time
             && Distinct(titles)[i] in Titles(Project(df))
             && result.value[i].link == FirstEntry(Project(df), Distinct(titles)[i]).link
  {
    var recArt := seq(|visits|, i requires 0 <= i < |visits| => visits[i].article);
    var recTime := seq(|visits|, i requires 0 <= i < |visits| => visits[i].time);
    var recLink := CollectLinks(Project(df), recArt);
    if recLink.None? {
      return None;
    }
    var values := recLink.value;
    var n := Min(|recArt|, Min(|recTime|, |values|));
    var zipped := seq(n, k requires 0 <= k < n => Recent(recArt[k], recTime[k], values[k]));
    result := Some(Take(zipped, 5));
  }

  /** The strategy choice of `welcomeuser` (lines 74-82): a user with at
      least 10 interaction rows gets 15 collaborative recommendations, any
      other user 15 content recommendations. */
  method Recommend(df: seq<Row>, userId: int, similar: seq<seq<nat>>) returns (recs: Option<seq<Rec>>)
    requires ValidCandidates(similar, |ContentTable(df)|)
    ensures RowCount(df, userId) >= 10 ==>
      && (recs.Some? <==> exists x :: x in DropNa(df) && x.user == userId)
      && (recs.Some? ==>
            Titles(recs.value) == Distinct(ArticleTitles(DropNa(df), CollaborativePicks(DropNa(df), userId, 15))))
      && (recs.Some? ==> FirstEntries(Project(DropNa(df)), recs.value))
    ensures RowCount(df, userId) < 10 ==>
      && recs.Some?
      && Titles(recs.value) == ContentPicks(df, userId, similar, 15)
      && FirstEntries(ContentTable(df), recs.value)
  {
    if RowCount(df, userId) >= 10 {
      recs := MakeCollaborativeRecs(df, userId, 15);
    } else {
      var content := MakeContentRecs(df, userId, similar, 15);
      recs := Some(content);
    }
  }

  /** The web application's state: the interaction table `df` and the id of
      the user whose page was shown last (`currentuser`). */
  class App {
    var df: seq<Row>
    var currentUser: int

    /** Start-up: the table as read from the database, current user 0. */
    constructor(data: seq<Row>)
      ensures df == data && currentUser == 0
    {
      df := data;
      currentUser := 0;
    }

    /** `temp`: a user id with at least one interaction row goes to the
        returning-user page, any other id to the new-user page. */
    function Temp(userId: int): (p: Page)
      reads this
      ensures p == ReturningUser(userId) <==> exists x :: x in df && x.user == userId
      ensures p == NewUser(userId) <==> RowCount(df, userId) == 0
    {
      if userId in UserColumn(df) then ReturningUser(userId) else NewUser(userId)
    }

    /** `welcomeuser`: remember the user as the current one, then the
        recommendations of `Recommend` and the recently read list. `similar`
        stands for the content similarity matrix, `visits` for the users
        database query. */
    method WelcomeUser(userId: int, similar: seq<seq<nat>>, visits: seq<Visit>)
      returns (recs: Option<seq<Rec>>, recent: Option<seq<Recent>>)
      modifies this
      requires ValidCandidates(similar, |ContentTable(df)|)
      ensures currentUser == userId && df == old(df)
      ensures RowCount(df, userId) >= 10 ==>
        && (recs.Some? <==> exists x :: x in DropNa(df) && x.user == userId)
        && (recs.Some? ==>
              Titles(recs.value) == Distinct(ArticleTitles(DropNa(df), CollaborativePicks(DropNa(df), userId, 15))))
        && (recs.Some? ==> FirstEntries(Project(DropNa(df)), recs.value))
      ensures RowCount(df, userId) < 10 ==>
        && recs.Some?
        && Titles(recs.value) == ContentPicks(df, userId, similar, 15)
        && FirstEntries(ContentTable(df), recs.value)
      ensures recent.Some? ==> |recent.value| <= 5
    {
      currentUser := userId;
      recs := Recommend(df, userId, similar);
      recent := RecentlyRead(df, visits);
    }

    /** `newuser`: the ten most read articles. */
    method NewUserPage(userId: int) returns (recs: seq<Rec>)
      ensures |recs| <= 10
      ensures Titles(recs) == TopTitles(df, 10)
      ensures forall i :: 0 <= i < |recs| ==>
        var first := FirstWithTitle(Project(df), recs[i].title);
        && first.Some?
        && recs[i].description == Project(df)[first.value].description
        && recs[i].link == ShownLink(Project(df)[first.value].link)
    {
      recs := GetTopRankedArticles(df, 10);
      assert Titles(recs) == TopTitles(df, 10);
    }

    /** `updatedatabase`: the id in the URL is ignored and the current user is
        used instead. The article name is cut out of the URL part; if the
        current user has no row with that title, a row is appended carrying
        the current user and the article id, description and link of the first
        row with that title. A title no row carries raises IndexError and the
        table stays as it was. */
    method UpdateDatabase(subpath: string, urlId: int, article: string) returns (outcome: Outcome)
      modifies this
      ensures currentUser == old(currentUser)
      ensures var name := ArticleName(article, currentUser);
        var first := FirstWithTitle(Project(old(df)), name);
        && (name in TitlesOf(old(df), currentUser) ==> outcome == AlreadyRead && df == old(df))
        && (name !in TitlesOf(old(df), currentUser) && first.None? ==> outcome == UnknownArticle && df == old(df))
        && (name !in TitlesOf(old(df), currentUser) && first.Some? ==>
              var source := old(df)[first.value];
              outcome == Recorded &&
              df == old(df) + [Row(currentUser, source.article, name, source.description, source.link)])
      ensures |df| == |old(df)| + 1 <==> outcome == Recorded
      ensures |df| == |old(df)| <==> outcome != Recorded
    {
      var id := currentUser;
      var name := ArticleName(article, id);
      if name in TitlesOf(df, id) {
        return AlreadyRead;
      }
      var first := FirstWithTitle(Project(df), name);
      if first.None? {
        return UnknownArticle;
      }
      var source := df[first.value];
      df := df + [Row(id, source.article, name, source.description, source.link)];
      outcome := Recorded;
    }
  }
}
