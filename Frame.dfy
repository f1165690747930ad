/** The interaction table the engine reads (`user-article-interactions`), the
    recommendation triples it returns, and the lookups every strategy uses to
    attach a description and a link to a title. */
module Frame {
  import opened Wrappers
  import opened SeqOps

  /** One interaction row: user_id, article_id, doc_full_name,
      doc_description and link. Description and link may be missing (NULL in
      the database, NaN in the data frame). */
  datatype Row = Row(user: int, article: int, title: string,
                     description: Option<string>, link: Option<string>)

  /** A recommendation as the pages show it: (title, description, link). The
      content table of the content recommender has the same three columns. */
  datatype Rec = Rec(title: string, description: Option<string>, link: Option<string>)

  /** No field of the row is missing. */
  predicate Complete(r: Row) {
    r.description.Some? && r.link.Some?
  }

  /** `df.dropna()`: the complete rows, in their original order. */
  function DropNa(df: seq<Row>): (r: seq<Row>)
    ensures forall x :: x in r <==> x in df && Complete(x)
    ensures forall i :: 0 <= i < |r| ==> Complete(r[i])
    ensures |r| <= |df|
  {
    if df == [] then []
    else
      var init, x := df[..|df| - 1], df[|df| - 1];
      var p := DropNa(init);
      LastSplit(df);
      if Complete(x) then p + [x] else p
  }

  /** The positions of the complete rows, in ascending order. */
  ghost function CompleteRows(df: seq<Row>): (r: seq<nat>)
    ensures forall p :: 0 <= p < |r| ==> r[p] < |df| && Complete(df[r[p]])
    ensures forall k :: 0 <= k < |df| && Complete(df[k]) ==> k in r
    ensures forall p, q :: 0 <= p < q < |r| ==> r[p] < r[q]
  {
    if df == [] then []
    else
      var p := CompleteRows(df[..|df| - 1]);
      if Complete(df[|df| - 1]) then p + [|df| - 1] else p
  }

  /** `dropna()` keeps the complete rows in their original order: entry p is
      the p-th complete row. */
  lemma {:induction false} DropNaInRowOrder(df: seq<Row>)
    ensures |DropNa(df)| == |CompleteRows(df)|
    ensures forall p :: 0 <= p < |CompleteRows(df)| ==> DropNa(df)[p] == df[CompleteRows(df)[p]]
  {
    if df != [] {
      var init := df[..|df| - 1];
      DropNaInRowOrder(init);
      var rows, r := CompleteRows(df), DropNa(df);
      forall p | 0 <= p < |CompleteRows(init)| ensures r[p] == df[rows[p]] {
        assert init[CompleteRows(init)[p]] == df[CompleteRows(init)[p]];
      }
    }
  }

  /** `dropna()` keeps every complete row as often as it occurs and drops
      every other row. */
  lemma {:induction false} DropNaCounts(df: seq<Row>)
    ensures forall y :: multiset(DropNa(df))[y] == if Complete(y) then multiset(df)[y] else 0
  {
    if df != [] {
      DropNaCounts(df[..|df| - 1]);
      LastSplit(df);
    }
  }

  /** `df[['doc_full_name', 'doc_description', 'link']]`. */
  function Project(df: seq<Row>): (r: seq<Rec>)
    ensures |r| == |df|
    ensures forall i :: 0 <= i < |df| ==> r[i].title == df[i].title
    ensures forall i :: 0 <= i < |df| ==> r[i] == Rec(df[i].title, df[i].description, df[i].link)
  {
    seq(|df|, i requires 0 <= i < |df| => Rec(df[i].title, df[i].description, df[i].link))
  }

  /** The titles of a table, in order. */
  function Titles(table: seq<Rec>): (r: seq<string>)
    ensures |r| == |table|
    ensures forall i :: 0 <= i < |table| ==> r[i] == table[i].title
  {
    seq(|table|, i requires 0 <= i < |table| => table[i].title)
  }

  /** `df.doc_full_name[df.user_id == u]`: the titles of u's rows, in row order. */
  function TitlesOf(df: seq<Row>, u: int): (r: seq<string>)
    ensures forall t :: t in r <==> exists x :: x in df && x.user == u && x.title == t
  {
    if df == [] then []
    else
      var p := TitlesOf(df[..|df| - 1], u);
      var x := df[|df| - 1];
      assert df == df[..|df| - 1] + [x];
      if x.user == u then p + [x.title] else p
  }

  /** The position of the first entry titled t, where `table[table.doc_full_name
      == t].tolist()[0]` reads; None where that expression raises IndexError. */
  function FirstWithTitle(table: seq<Rec>, t: string): (k: Option<nat>)
    ensures k.None? <==> forall i :: 0 <= i < |table| ==> table[i].title != t
    ensures k.Some? ==> k.value < |table| && table[k.value].title == t
    ensures k.Some? ==> forall i :: 0 <= i < k.value ==> table[i].title != t
  {
    if table == [] then None
    else if table[0].title == t then Some(0)
    else
      match FirstWithTitle(table[1..], t)
      case None => None
      case Some(k) => Some(k + 1)
  }

  /** A title has a first entry exactly when it is one of the table's titles. */
  lemma FirstWithTitleFound(table: seq<Rec>, t: string)
    ensures FirstWithTitle(table, t).Some? <==> t in Titles(table)
  {
    if t in Titles(table) {
      var i :| 0 <= i < |table| && Titles(table)[i] == t;
      assert table[i].title == t;
    }
  }

  /** The first entry carrying title t: what `tolist()[0]` picks. */
  function FirstEntry(table: seq<Rec>, t: string): (e: Rec)
    requires t in Titles(table)
    ensures e in table && e.title == t
    ensures FirstWithTitle(table, t).Some? && e == table[FirstWithTitle(table, t).value]
  {
    FirstWithTitleFound(table, t);
    table[FirstWithTitle(table, t).value]
  }

  /** Each entry is the first entry of the table that carries its title. */
  ghost predicate FirstEntries(table: seq<Rec>, recs: seq<Rec>) {
    forall i :: 0 <= i < |recs| ==>
      FirstWithTitle(table, recs[i].title).Some? &&
      recs[i] == table[FirstWithTitle(table, recs[i].title).value]
  }

  /** The loop that fills the `links` and `descr` dictionaries title by title
      and zips them with the titles: each title gets the description and link
      of the first entry that carries it. The titles are distinct at every
      call, so the two dictionaries hold one value per title, in title order,
      and the zip pairs them up position by position. */
  method Describe(table: seq<Rec>, titles: seq<string>) returns (recs: seq<Rec>)
    requires NoDups(titles)
    requires forall t :: t in titles ==> t in Titles(table)
    ensures Titles(recs) == titles
    ensures FirstEntries(table, recs)
    ensures forall e :: e in recs ==> e in table
  {
    recs := [];
    for i := 0 to |titles|
      invariant Titles(recs) == titles[..i]
      invariant FirstEntries(table, recs)
    {
      var title := titles[i];
      assert title in Titles(table);
      var k := FirstWithTitle(table, title).value;
      recs := recs + [Rec(title, table[k].description, table[k].link)];
      assert Titles(recs) == titles[..i + 1];
    }
  }
}
