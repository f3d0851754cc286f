# Genre-based movie recommender — Dafny model

This project models the query logic of a small genre-based movie recommender.
The system has two tables, `movies` (movieId, title, genres) and `ratings`
(userId, movieId, rating). It does two things with them:

* **Genre vocabulary** (`get_unique_genres`). Every movie's `genres` field is a
  `'|'`-separated list of labels. The labels of all movies are collected into a
  set and returned sorted. In the model this is `Genres.UniqueGenres`, a method
  with a loop over the movies and a set accumulator. The set is then sorted by
  `Genres.SortedStrings`, a selection loop that repeatedly removes the least
  string.
* **Recommendation** (`recommend_movies`). This answers "the five best-rated
  titles in genre G". The model is the function `Recommend.TopMovies`, built as a
  chain of pure steps, the same chain the source runs on its tables:
  1. keep the movies whose `genres` contains G, ignoring case (`MoviesInGenre`);
  2. inner-join them to the ratings on movieId (`Merge`);
  3. group the joined rows by **title** and compute each group's mean and count
     (`Aggregate`);
  4. drop titles with fewer than 10 ratings (`Popular`);
  5. rank by mean, high to low (`SortByAvgDesc`, an insertion sort built on `Insert`, and `Ranked`);
  6. keep the first 5 (`Take`).

Each step is proved to agree with an independent reference, `Recommend.TitleRatings`.
It reads a title's ratings directly off the ratings table: each rating is counted
once for every movie row of that title and genre that carries its movieId, which
is exactly how often the inner join repeats it. `Expected` is the mean and count
of that reference, and `Qualifies` says whether the count reaches the threshold.
The main theorems tie the result to this reference:

* every returned row is `Expected` of its title, and that title qualifies;
* titles in the result are distinct;
* the result holds at most 5 rows, each with at least 10 ratings, in
  non-increasing order of mean;
* top-N: a qualifying title is missing only if 5 rows came back, each with a mean
  at least as high as the missing title's;
* the result is empty exactly when no title qualifies. In particular it is empty
  when no movie matches the genre, or when no matching movie has a rating.

Ratings are exact `real`s, so means are exact quotients.

Modules: `Text` (`text.dfy`: split/join, substring search, ASCII case, string
order), `Tables` (`tables.dfy`: the record types), `Genres` (`genres.dfy`: the
vocabulary), `Recommend` (`recommend.dfy`: the query, the reference definition and
the theorems).

## Model

| member | source | states |
|---|---|---|
| `Text.Split` | app.py:15 | `str.split('|')`: there is always at least one piece, and no piece contains the separator |
| `Text.JoinSplit` | app.py:15 | splitting loses nothing: joining the pieces with the separator gives back the original string |
| `Text.SplitJoin` | app.py:15 | splitting the joined pieces gives back the pieces, provided none of them contains the separator |
| `Text.SplitPieceOccurs` | app.py:15 | every label obtained by splitting a `genres` string occurs in that string as a substring |
| `Text.ContainsIff` | app.py:21 | the substring test holds exactly when the needle occurs at some position of the haystack |
| `Text.ContainsIgnoreCase` | app.py:21 | `str.contains(..., case=False)`: matches exactly when the lower-cased genre starts at some position of the lower-cased `genres` string |
| `Text.ContainsIgnoreCaseOfLower` | app.py:21 | `case=False`: lower-casing both arguments first does not change the outcome of the match |
| `Text.ContainsThenContainsIgnoreCase` | app.py:21 | an exact occurrence is also a match when case is ignored |
| `Text.LessIrreflexive` | app.py:16 | the string order used by `sorted` is irreflexive |
| `Text.LessTransitive` | app.py:16 | the string order used by `sorted` is transitive |
| `Text.LessTotal` | app.py:16 | any two different strings are ordered one way or the other |
| `Genres.VocabularyIff` | app.py:14-15 | a label is in the collected set exactly when some movie's `genres` splits into a list containing it |
| `Genres.Least` | app.py:16 | returns an element of a non-empty set of strings that is below every other element |
| `Genres.SortedStrings` | app.py:16 | `sorted(set)`: the result is strictly ascending and holds exactly the elements of the set |
| `Genres.StrictlyAscendingUnique` | app.py:16 | two strictly ascending sequences with the same elements are equal, so the sorted vocabulary is uniquely determined |
| `Genres.UniqueGenres` | app.py:12-16 | the vocabulary is strictly ascending (sorted, no repeats), and a label is in it exactly when it is one of the pieces of some movie's `genres` |
| `Recommend.InGenre` | app.py:21 | the genre mask: a movie matches when the genre occurs in its `genres`, ignoring case, and every exact occurrence matches |
| `Recommend.MoviesInGenre` | app.py:21 | a movie is kept exactly when it is in the table and its `genres` contains the genre, ignoring case |
| `Recommend.MergeOne` | app.py:24 | the joined rows for one movie are exactly the pairs of its title with a rating of the same movieId |
| `Recommend.Merge` | app.py:24 | inner join: a (title, rating) row is present exactly when some movie and some rating share a movieId |
| `Recommend.GroupRatings` | app.py:27 | a title's group holds each rating exactly as many times as the joined table has a row with that title and that rating |
| `Recommend.GroupRatingsMember` | app.py:27 | every rating in a title's group comes from a joined row carrying that title |
| `Recommend.GroupNonEmptyIff` | app.py:27 | a title's group is non-empty exactly when some joined row carries that title |
| `Recommend.Titles` | app.py:27 | the group keys are exactly the titles of the joined rows, each once |
| `Recommend.Mean` | app.py:28 | `mean`: for a non-empty group, the mean times the count is the sum |
| `Recommend.MeanBetween` | app.py:28 | the mean of a non-empty group lies between any lower and upper bound of its ratings |
| `Recommend.StatOf` | app.py:27-28 | `agg(['mean', 'count'])` of one group: the row carries the group's title, and its count is at least 1 exactly when some joined row carries that title |
| `Recommend.Aggregate` | app.py:27-28 | one row per title of the joined table, titles distinct, each row the mean and count of that title's group (count at least 1) |
| `Recommend.Popular` | app.py:31 | keeps exactly the rows with `rating_count >= 10` |
| `Recommend.PopularKeepsTitlesDistinct` | app.py:31 | the threshold keeps titles distinct |
| `Recommend.InsertAddsOne` | app.py:34 | inserting into a ranking adds exactly that one row and removes nothing |
| `Recommend.InsertKeepsRanked` | app.py:34 | inserting into a ranking that is non-increasing by mean keeps it non-increasing |
| `Recommend.InsertKeepsTitlesDistinct` | app.py:34 | inserting a row with a new title keeps titles distinct |
| `Recommend.SortByAvgDesc` | app.py:34 | `sort_values(ascending=False)`: the result is non-increasing by mean and a permutation of the input |
| `Recommend.SortKeepsTitlesDistinct` | app.py:34 | ranking keeps titles distinct |
| `Recommend.Ranked` | app.py:31-34 | the ranked rows are non-increasing by mean, and are exactly the genre's statistics rows with at least 10 ratings |
| `Recommend.Take` | app.py:34 | `head(n)`: a prefix of the ranking of length min(n, its length) |
| `Recommend.TakeKeepsEarly` | app.py:34 | `head(n)` keeps every row at a position below n |
| `Recommend.TopMovies` | app.py:19-36 | at most 5 rows, each with at least 10 ratings, in non-increasing order of mean |
| `Recommend.GroupOfMerge` | app.py:21-27 | the group of title t after the genre filter and the join holds the ratings of the genre's movie rows titled t, movie by movie |
| `Recommend.PerMovieIsTitleRatings` | app.py:24-27 | those ratings are, as a multiset, the ratings read straight off the ratings table with the join's multiplicity |
| `Recommend.SumPermutation` | app.py:27 | a group's sum, and so its mean, does not depend on the order of the joined rows |
| `Recommend.GroupStatIsExpected` | app.py:21-28 | the mean and count computed for any title equal the mean and count of the reference ratings of that title |
| `Recommend.TopMoviesAreExpected` | app.py:21-31 | every returned row is the reference statistics of its title, and that title has at least 10 ratings |
| `Recommend.TopMoviesMeanInRange` | app.py:21-34 | when every rating lies between two bounds, so does every recommended mean |
| `Recommend.TopMoviesDistinctTitles` | app.py:27-34 | no title is returned twice |
| `Recommend.QualifyingIsRanked` | app.py:27-34 | every title with at least 10 ratings has its statistics row in the ranking |
| `Recommend.TopMoviesOmitsOnlyLower` | app.py:31-34 | top-N: a qualifying title is left out only when 5 rows came back, each with mean at least the omitted title's mean |
| `Recommend.TopMoviesShortIsComplete` | app.py:31-34 | when fewer than 5 rows come back, every qualifying title is among them |
| `Recommend.TopMoviesEmptyIff` | app.py:21-34 | the result is empty exactly when no title of the genre has at least 10 ratings (the "no recommendations" case) |
| `Recommend.NoGenreRatingsMeansEmpty` | app.py:21-24 | no matching movie, or no rating for any matching movie, gives an empty result |
| `Recommend.MergeNoMatches` | app.py:24 | the join is empty when no rating shares a movieId with any movie |
| `Recommend.MoviesInGenreIgnoresCase` | app.py:21 | filtering by a genre and by its lower-cased form keeps the same movies |
| `Recommend.TopMoviesIgnoresCase` | app.py:21 | the recommendation for a genre equals the recommendation for its lower-cased form |
| `Recommend.VocabularyGenreHasMovies` | app.py:44-49 | a genre offered by the vocabulary and passed to the query matches at least one movie |
| `Recommend.UniqueIdsTitleRatings` | app.py:24-27 | when movieIds are unique, a title's reference ratings are exactly the ratings whose movieId belongs to a genre movie with that title |
| `Recommend.TopMoviesUniqueIds` | app.py:21-28 | when movieIds are unique, each returned row's count and mean are the count and mean of exactly those ratings |

## Left out

- `load_data` (app.py:5-9) is not modelled: it reads CSV files and memoises them with the UI library's cache. The two tables are parameters instead.
- `main` (app.py:39-55) is not modelled: it is the web UI (widgets, button, markdown and warning output, `:.2f` formatting). Only its data flow from the vocabulary to the query is stated, in `Recommend.VocabularyGenreHasMovies`.
- `Recommend.InGenre`: `str.contains` treats the genre as a regular expression by default. The model uses plain substring search, which agrees with it for genre labels that contain no regex metacharacters. `na=False` (missing `genres` values) is not modelled, because a `Movie` always has a string.
- `Text.Lower`: case is folded for ASCII letters only. Unicode case folding, as the regex engine's IGNORECASE does it, is not modelled.
- Floating point is not modelled: ratings are exact reals, so a mean is the exact quotient with no rounding.
- `Recommend.SortByAvgDesc`: the source sorts with pandas' default unstable quicksort. The model uses an insertion sort. Both satisfy "permutation, non-increasing by mean", which is all that is promised. The order among titles with equal means is left unspecified.
- `Recommend.Titles`: `groupby` sorts its keys by title. The model keeps each title at the position of its last appearance instead. The ranking that follows reorders the rows anyway, so this only affects the unspecified order among equal means.
- `Recommend.Mean`: the mean of an empty group (NaN in pandas) is given as 0. This is never reached, because every group has at least one row (`Recommend.Aggregate`).
- `Genres.SortedStrings`: Python's `sorted` is a merge sort. The model repeatedly takes the least element of the set. The outcome is the same, because a strictly ascending order of a set is unique (`Genres.StrictlyAscendingUnique`).
