# IBM article recommendations — a Dafny model

This project models the decision logic of a small article-recommendation web
application. The application reads a table of user–article interactions
(user id, article id, title, description, link). Its recommendations follow three strategies:

- **Collaborative filtering** for users with at least ten interaction rows:
  - build a 0/1 user × article matrix;
  - score every other user by the dot product with the target's row;
  - walk the users from most to least similar, and each user's articles from most to least viewed;
  - collect up to `n` articles that are new and unread;
  - attach title, description and link.
- **Content-based recommendation** for the other returning users: walk the
  rows of the de-duplicated (title, description, link) table whose title the
  user has read, walk each row's candidate list, and collect up to `m` new,
  unread titles in all.
- **Popularity** for new users: the `n` most read titles, with `'#'` in place of an empty link.

Around the engine, the model covers these parts of the web front end and the loader:

- the routing of a user id to the returning-user or the new-user page;
- the choice between the two personalised strategies;
- the "recently read" list;
- the "mark as read" route, which cuts the article name out of the URL and appends one interaction row;
- the one-time loader, which:
  - numbers the e-mail addresses;
  - de-duplicates the article table;
  - joins the interactions with it.

Modules:

- `Wrappers`: `Option`. A Python exception (`KeyError`, `IndexError`) is a `None` result.
- `SeqOps`: the list and pandas primitives:
  - `unique()` and `drop_duplicates(keep='first')`;
  - `value_counts()` and `sort_values(ascending=False)`;
  - the slice `[:n]`;
  - the "collect up to n new items" greedy loop, specified as `Take(Novel(candidates, excluded), n)`.
- `Frame`: the interaction row, the recommendation triple, `dropna()`, and the
  "first row with this title" lookups (`tolist()[0]`) behind every link and description.
- `Recommender` (`model/recommender.py`):
  - the user-item matrix and its similarity scores;
  - the similar-user ranking;
  - both selection loops, written as imperative methods proved against `Take(Novel(...))`;
  - the title/link/description assembly;
  - the popularity ranking.
- `Text`: Python's `str(int)` and `str.split(sep)`, and the article-name extraction of `updatedatabase`.
- `App` (`app.py`): the globals `df` and `currentuser` are the fields of a class `App`.
  - `temp` is a function of its state.
  - `welcomeuser` and `updatedatabase` are methods that change it.
- `ProcessData` (`data/process_data.py`): the loader as one method.
  - The e-mail numbering is a loop over a map.
  - The de-duplications and the join are functions, with lemmas about them.

Choices the model makes where the code's behaviour is easy to misread:

- **A target user with no complete row.** The collaborative component does
  not return an empty list for this user: it raises `KeyError`, because
  `drop` and `loc` are given a missing label. The model returns `None`.
- **Missing descriptions and links** are not replaced by empty strings.
  - The collaborative path drops incomplete rows before it starts (`dropna`).
  - The content and popularity paths pass the missing value through.
  - Only an empty-string link becomes `'#'`.
- **Ties in the popularity ranking.** `sort_values` does not promise to
  break ties by row order, so the model states only the non-increasing order.
- **The loader's output table.** The loader writes a table named `categories`
  (`data/process_data.py:36`). The web application reads
  `user-article-interactions` (`app.py:26`). The model treats the two as unrelated inputs.

## Model

| member | source | states |
|---|---|---|
| SeqOps.Take | model/recommender.py:157 | `[:n]` keeps the first min(n, len) elements, as a prefix of the input |
| SeqOps.Novel | model/recommender.py:46-48 | the filtered list has no repetition and holds exactly the candidates that are not excluded; it is never longer than the input |
| SeqOps.Distinct | model/recommender.py:53 | `unique()` holds each element of the input exactly once and nothing else |
| SeqOps.DistinctOfNoDups | model/recommender.py:53 | `unique()` of a list without repetitions is the list itself |
| SeqOps.CollectedSettles | model/recommender.py:49-52 | once n items are collected, further candidates change nothing, so the `break`s are safe |
| SeqOps.CollectedProperties | model/recommender.py:42-52 | the greedy loop returns at most n items. None repeats and none is excluded, and every item is a candidate. Fewer than n means every eligible candidate was taken |
| SeqOps.ValueCounts | model/recommender.py:36 | `value_counts()` pairs each distinct value with its number of occurrences |
| SeqOps.SortDescending | model/recommender.py:37 | `sort_values(ascending=False)` yields non-increasing counts and a permutation of its input (pairs and keys) |
| SeqOps.RankByCount | model/recommender.py:36-37 | every distinct value once, and more frequent values come before less frequent ones |
| SeqOps.TopCountsFirst | model/recommender.py:157 | a value cut off by `[:n]` occurs no more often than any value that was kept |
| SeqOps.Flatten | model/recommender.py:43-45 | the concatenated candidate lists hold exactly the elements of the lists |
| Frame.DropNa | model/recommender.py:21 | `dropna()` keeps exactly the complete rows, so every kept row has description and link |
| Frame.DropNaInRowOrder | model/recommender.py:21 | the kept rows are the complete rows (ascending positions), one entry per row, in row order |
| Frame.DropNaCounts | model/recommender.py:21 | each complete row is kept as often as it occurs; every incomplete row is dropped |
| Frame.Project | model/recommender.py:69 | the (title, description, link) columns, row by row |
| Frame.TitlesOf | app.py:118 | exactly the titles of the rows of user u |
| Frame.FirstWithTitle | model/recommender.py:58 | the index of the first row with title t, None exactly when no row has it |
| Frame.FirstWithTitleFound | model/recommender.py:58 | the `tolist()[0]` lookup succeeds exactly when the title is in the table |
| Frame.FirstEntry | model/recommender.py:140-141 | for a title present in the table: the row at the first position carrying it |
| Frame.Describe | model/recommender.py:137-145 | each distinct title, in order, gets the description and link of the first row carrying it |
| Recommender.CollectFrom | model/recommender.py:45-50 | the inner loop over one list continues `Take(Novel(candidates so far, read), n)` to include the whole list |
| Recommender.Collect | model/recommender.py:42-52 | the nested loop returns `Take(Novel(Flatten(lists), read), n)` |
| Recommender.InsertAscending | model/recommender.py:26 | inserting into a strictly increasing key list keeps it strictly increasing and adds exactly the key |
| Recommender.GroupKeys | model/recommender.py:26 | the `groupby` keys are the distinct values in strictly increasing order |
| Recommender.UserColumn | app.py:60 | `df.user_id.tolist()` has one entry per row, the user of that row, so it holds exactly the users with a row and each as often as it has rows |
| Recommender.ArticleColumn | model/recommender.py:26 | exactly the articles with a row |
| Recommender.ArticlesOf | model/recommender.py:36 | exactly the articles of u's rows |
| Recommender.ArticlesOfInRowOrder | model/recommender.py:36 | u's articles are the articles of u's rows (ascending positions), one entry per row, in row order |
| Recommender.ArticlesOfCounts | model/recommender.py:36 | the count `value_counts()` gives an article is the number of rows in which u read it |
| Recommender.GetUserByItem | model/recommender.py:24-28 | rows are all users and columns all articles, both sorted. Every cell is 0 or 1, and it is 1 exactly when the user read the article |
| Recommender.PresenceIsRead | model/recommender.py:25-27 | the mean of the `ones` column over a (user, article) group is 1 when the group has rows, and the fill value 0 otherwise |
| Recommender.DotCountsShared | model/recommender.py:32 | over distinct articles, the dot product of two 0/1 rows is the number of articles both users read |
| Recommender.SimilarityIsCoRead | model/recommender.py:32 | the dot product of two users' matrix rows equals their co-read count |
| Recommender.Without | model/recommender.py:32 | `drop(user_id)` keeps every other index entry, and keeps them distinct |
| Recommender.SimilarityScores | model/recommender.py:32 | one score per other user, equal to the co-read count with the target |
| Recommender.GetTopSimilarUsers | model/recommender.py:30-33 | None exactly when the target has no row. Otherwise every other user exactly once, never the target, in non-increasing co-read order |
| Recommender.RankedBySimilarity | model/recommender.py:33 | sorting the scores keeps every user once and orders them by non-increasing co-read count |
| Recommender.GetMostViewedArticles | model/recommender.py:35-37 | each article u read appears exactly once, ordered by non-increasing view count |
| Recommender.CollaborativeCandidates | model/recommender.py:43-44 | list k holds exactly the articles of the k-th similar user, once each |
| Recommender.CandidatesAreRead | model/recommender.py:43-45 | an article is a candidate exactly when one of the similar users read it |
| Recommender.CollaborativePicksProperties | model/recommender.py:42-52 | at most n articles. None repeats and none was read by the target, and each was read by another user. Fewer than n means every article some other user read and the target did not is included |
| Recommender.ArticleTitles | model/recommender.py:53 | exactly the titles of rows whose article id was collected |
| Recommender.ArticleTitlesInRowOrder | model/recommender.py:53 | the looked-up titles are the titles of the matching rows (ascending positions), one per row, in row order |
| Recommender.ArticleTitlesInTable | model/recommender.py:53-59 | every such title has a row, so the link and description lookups succeed |
| Recommender.CompleteEntries | model/recommender.py:21 | entries taken from cleaned rows carry a description and a link |
| Recommender.DescribeArticles | model/recommender.py:53-63 | the titles are `unique()` of the collected ids' titles, each with the first row's description and link, all present |
| Recommender.CollaborativeArticles | model/recommender.py:40-52 | None exactly when the target has no row. Otherwise the collected ids are the greedy pick over the ranked users' view-ordered articles |
| Recommender.MakeCollaborativeRecs | model/recommender.py:20-63 | on the `dropna()` table: None exactly when the target has no complete row. Otherwise the titles are `unique()` of the picked articles' titles, with the description and link of each title's first row |
| Recommender.UserArticles | model/recommender.py:68 | the distinct titles the user read |
| Recommender.ContentTable | model/recommender.py:69 | the de-duplicated (title, description, link) table holds each projected row exactly once |
| Recommender.SeedRows | model/recommender.py:122 | the ascending positions of the table rows whose title the user read, all of them |
| Recommender.RowTitles | model/recommender.py:127 | `iloc[rows].doc_full_name`: the titles of the given rows, in order |
| Recommender.CandidatesAreTableTitles | model/recommender.py:126-127 | every content candidate is a title of the content table |
| Recommender.ContentPicksProperties | model/recommender.py:124-135 | at most m titles. None repeats, none was read by the user, each is a candidate. Fewer than m means every unread candidate is included. A user without rows gets none |
| Recommender.MakeContentRecs | model/recommender.py:122-145 | the titles are the greedy pick over the seed rows' candidates, each with the first table row's description and link |
| Recommender.TopTitlesAreMostRead | model/recommender.py:157 | at most n titles, none twice, in non-increasing read count. None is less read than a title left out. Fewer than n means all titles |
| Recommender.ShownLink | model/recommender.py:163-164 | an empty link becomes `'#'`; any other link is unchanged |
| Recommender.GetTopRankedArticles | model/recommender.py:156-167 | the top titles in order, each with the first row's description and its link after the `'#'` substitution |
| Text.Find | app.py:112 | the first position where the separator occurs, None when it never occurs |
| Text.Split | app.py:112 | `split` yields at least one piece, and no piece contains the separator |
| Text.BeforeFirst | app.py:112-116 | a prefix of the string with no occurrence of the separator starting inside it, ending where the first occurrence starts or at the end |
| Text.FirstPiece | app.py:112-116 | the first piece is the prefix before the first separator, or the whole string; it equals `BeforeFirst` |
| Text.SecondPiece | app.py:113-114 | a second piece exists exactly when the separator occurs, and it is the text after the first occurrence up to the next occurrence (searched from there, so overlapping occurrences do not count) or the end |
| Text.ChosenPiece | app.py:113-116 | the `try`/`except` picks the second piece if there is one, which is `BeforeFirst` of the text after the first occurrence, and the whole string otherwise |
| Text.JoinSplit | app.py:112 | joining the pieces with the separator gives back the string |
| Text.ParseDigitsOfDigits | app.py:112 | reading the decimal digits of n gives back n |
| Text.DecimalString | app.py:112 | `str(n)` starts with `-` exactly for negative n; the rest is a non-empty run of decimal digits without a leading zero (except `0` itself) that reads back as the absolute value of n |
| Text.ArticleName | app.py:112-116 | no `"<id>-"` in the URL part: the whole part. Otherwise the text after the first separator, up to the first occurrence of the separator in that text or the end |
| App.RowCount | app.py:74 | the number of u's rows, zero exactly when u has none |
| App.FirstLink | app.py:90 | the link of the first row with the title, None exactly when no row has it |
| App.CollectLinks | app.py:88-91 | None exactly when some visited title has no row. Otherwise one link per distinct title, in first-visit order, each from the title's first row |
| App.Values | app.py:91 | `values()` of the filled dictionary: the distinct titles' links in insertion order |
| App.AddLink | app.py:90 | a dictionary assignment keeps the link invariant, and only a new key extends the key order |
| App.RecentlyRead | app.py:85-95 | None exactly when a visited title has no row. Otherwise at most five entries, with the visits' titles and times, paired with the distinct titles' links |
| App.App.constructor | app.py:26-36 | the table as loaded, current user 0 |
| App.App.Temp | app.py:60-63 | returning-user page exactly when the id has a row; new-user page exactly when it has none |
| App.Recommend | app.py:74-82 | at least 10 rows: the collaborative recommendations for n = 15, None iff the user has no complete row. Otherwise the content recommendations for m = 15. Either way each carries the first table row of its title |
| App.App.WelcomeUser | app.py:68-95 | sets the current user and leaves the table alone; the recommendations are those of `App.Recommend`; the recent list has at most 5 entries |
| App.App.NewUserPage | app.py:99-102 | at most 10 entries, titled by the popularity ranking; each carries the description of its title's first row and that row's link with `'#'` for an empty link |
| App.App.UpdateDatabase | app.py:105-124 | uses the current user, not the URL id. It appends exactly one row, with the title's first-row article id, description and link, only when the extracted title is new to the user and known to the table. Otherwise the table is unchanged |
| ProcessData.FirstById | data/process_data.py:14 | the first position carrying an article id, None exactly when none does |
| ProcessData.KeepFirstById | data/process_data.py:14 | the ids left are the distinct ids in first-appearance order |
| ProcessData.KeptRowsAreFirst | data/process_data.py:14 | the row kept for an id is the first row carrying it |
| ProcessData.IdsUnique | data/process_data.py:14 | no article id occurs twice afterwards; the rows kept come from the input and keep every id |
| ProcessData.KeepFirstByIdAfterDistinct | data/process_data.py:13-14 | dropping repeated rows first does not change the result of the id de-duplication |
| ProcessData.AssignUserIds | data/process_data.py:21-26 | exactly the seen e-mails get an id. The ids are below the count, and an e-mail's id is its position in first-appearance order |
| ProcessData.UserIdsAreDense | data/process_data.py:21-26 | distinct e-mails get distinct ids, and every number below the count is used |
| ProcessData.WithUserIds | data/process_data.py:27-28 | one row per interaction, keeping article id and title, with the user id of that row's own e-mail |
| ProcessData.SameUserIffSameEmail | data/process_data.py:27 | every row's e-mail has an id, and two rows share a user id exactly when they share an e-mail |
| ProcessData.Matches | data/process_data.py:32 | the joined rows of one interaction are exactly its pairings with the article rows of the same id |
| ProcessData.MatchesAtMostOne | data/process_data.py:32 | with unique ids an interaction joins with one row if its id is known and none otherwise |
| ProcessData.Merge | data/process_data.py:32 | the inner join holds exactly the pairings of an interaction and an article row with the same id |
| ProcessData.Known | data/process_data.py:32 | the interactions whose article id occurs in the article table, each kept as often as it occurs; the others are dropped |
| ProcessData.MergeSize | data/process_data.py:32 | with unique ids the join has one row per known interaction, never more rows than interactions |
| ProcessData.MergedRowsFromInputs | data/process_data.py:28-32 | each joined row takes its id and user from an interaction, and its name and description from an article row with that id |
| ProcessData.Load | data/process_data.py:13-32 | the ids satisfy the numbering. The output is the join of the numbered interactions with the de-duplicated articles. It is no longer than the interactions, and every row comes from both inputs |

## Left out

- Tokenisation, TF-IDF and the similarity matrix (`model/recommender.py:72-111`, 118, 126) rely on nltk, sklearn, floating-point weights and a percentile threshold.
  - The candidate rows of each content-table row are an input, `similar`.
  - `Recommender.ValidCandidates` only requires them to be row indices.
- The cloudpickle cache of the similarity matrix (`model/recommender.py:114-120`) is file I/O.
- `Content.get_similar_articles` (`model/recommender.py:147-153`) is unused, and it reads an attribute that is never set.
- Flask routing, redirects and templates are not modelled.
- The SQLAlchemy sessions and the `User` table are not modelled; `App.App.WelcomeUser` takes the recently-read query result as the input `visits`.
- The insert into the `User` table and its time update in `updatedatabase` (`app.py:129-139`) are persistence and clock reads. So is `datetime.now()`.
- The insert into the interaction table in `updatedatabase` (`app.py:126-127`) is persistence; the model keeps only the matching append to `df` (`app.py:121-124`).
- Reading the CSV files, `to_sql`, and the `astype` int/str conversions (`data/process_data.py:6-9`, 17-18, 35-36) are I/O and type coercion. Article ids are integers on both sides of the join.
- E-mails are strings. A missing e-mail (NaN as a dictionary key) is not modelled.
- The row order of the inner join is not modelled: pandas may group the output by key. `ProcessData.Merge` keeps the interactions' order.
- Recommendation counts (`n`, `m`) are natural numbers; a negative count is not modelled.
- `SeqOps.SortDescending`: pandas' default sort is not stable, so the model uses one fixed insertion sort and its contract states only the non-increasing order and the permutation. The order of ties is left open, as in the source.
- `Recommender.GetTopSimilarUsers` and `Recommender.RankByCount` inherit that: ties between equal scores or counts may come in any order.
- `Frame.Describe`: requires distinct titles. Every caller passes distinct titles: `unique()` output, the collected recommendations, or the ranking. With distinct titles, the source's `links`/`descr` dictionaries and the final `zip` line up.
- `App.RecentlyRead`: when a title is visited twice, the source pairs links with the distinct titles and not with the visits. The model states exactly that. The users database holds each title of a user once, because `updatedatabase` only updates the time of a title that is already there.
- `App.App.WelcomeUser`: states only the five-entry bound for the recent list; `App.RecentlyRead` states its contents.
- `App.App.WelcomeUser`: in the source a `KeyError` or `IndexError` in either part aborts the whole page. The model returns the recommendations and the recent list as two independent `Option`s, each `None` where its own part raises.
- `Recommender.ArticlesOf`: its own contract states membership only. The row order and the per-article counts are stated by `Recommender.ArticlesOfInRowOrder` and `Recommender.ArticlesOfCounts`, which keeps the proofs that use the function small.
- `Frame.DropNa`: its own contract states membership only. The row order and the per-row multiplicity are stated by `Frame.DropNaInRowOrder` and `Frame.DropNaCounts`, which keeps the proofs that use the function small.
- `Recommender.ArticleTitles`: its own contract states membership only. The row order is stated by `Recommender.ArticleTitlesInRowOrder`.
- `Frame.Row`: the user id, the article id and the title are never missing. Only the description and the link can be NaN, so `Frame.DropNa` tests only those two.
